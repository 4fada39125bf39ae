/** The server's registration and login validators, and the handlers that
    refuse a request with 400 before the authentication service is called.
    express-validator runs every validator of the chain and reports every
    failure; a custom validator reports the first error it throws. */
module AuthController {
  import opened Wrappers
  import opened Text

  /** The failures the validators report. Each carries the message text of
      its validator (`Message`); the handlers return the failures in the
      order the validators run. */
  datatype Invalid =
    | InvalidEmail | GmailRequired | PasswordTooShort | PasswordTooSimple | NameCannotBeEmpty
    | PhonePrefixRequired | PhoneTooShort | PhoneFormat | PasswordRequired

  function Message(e: Invalid): string {
    match e
    case InvalidEmail => "Invalid email format"
    case GmailRequired => "Email must be a Gmail address (@gmail.com)"
    case PasswordTooShort => "Password must be at least 8 characters"
    case PasswordTooSimple =>
      "Password must contain at least one uppercase letter, one lowercase letter, one number, and one special character"
    case NameCannotBeEmpty => "Name cannot be empty"
    case PhonePrefixRequired => "Phone number must start with +91"
    case PhoneTooShort => "Phone number must be at least 10 digits after +91"
    case PhoneFormat => "Phone number must be in format +91XXXXXXXXXX (10 digits after +91)"
    case PasswordRequired => "Password is required"
  }

  /** The special characters of the password rule. */
  const SpecialCharacters: string := "!@#$%^&*(),.?\":{}|<>"

  predicate IsSpecial(c: char) { c in SpecialCharacters }

  /** The JSON body of a registration; a missing email or password is the
      empty string. */
  datatype RegisterBody = RegisterBody(email: string, password: string, name: Option<string>, phone: Option<string>)

  /** The characters a lookahead `(?=.*[...])` anchored at the start can
      reach: `.` matches no line terminator, so the scan ends at the first
      one. */
  function FirstLine(s: string): (r: string)
    ensures r <= s
    ensures forall i :: 0 <= i < |r| ==> !IsLineTerminator(r[i])
    ensures |r| < |s| ==> IsLineTerminator(s[|r|])
  {
    if s == [] || IsLineTerminator(s[0]) then ""
    else [s[0]] + FirstLine(s[1..])
  }

  /** `/^(?=.*[a-z])(?=.*[A-Z])(?=.*[0-9])(?=.*[special])/`. */
  predicate PasswordComplex(p: string) {
    var line := FirstLine(p);
    HasCharWhere(line, IsLower) && HasCharWhere(line, IsUpper) && HasCharWhere(line, IsDigit)
    && HasCharWhere(line, IsSpecial)
  }

  /** `/^\+91[0-9]{10}$/`: `$` without the m flag is the end of input. */
  predicate IsIndianMobile(s: string) {
    |s| == 13 && s[..3] == "+91" && AllDigits(s[3..])
  }

  /** The custom phone validator: its checks in order, the first failing
      one's message, and nothing for an empty value. */
  function PhoneError(phone: string): (r: Option<Invalid>)
    ensures r.None? <==> phone == "" || IsIndianMobile(phone)
    ensures phone != "" && !StartsWith(phone, "+91") ==> r == Some(PhonePrefixRequired)
    ensures StartsWith(phone, "+91") && |phone| < 13 ==> r == Some(PhoneTooShort)
    ensures StartsWith(phone, "+91") && |phone| >= 13 && !IsIndianMobile(phone) ==> r == Some(PhoneFormat)
  {
    if phone == "" then None
    else if !StartsWith(phone, "+91") then Some(PhonePrefixRequired)
    else if |phone| < 13 then Some(PhoneTooShort)
    else if !IsIndianMobile(phone) then Some(PhoneFormat)
    else None
  }

  /** An accepted non-empty phone is exactly `+91` followed by ten digits. */
  lemma AcceptedPhoneShape(phone: string)
    requires phone != "" && PhoneError(phone).None?
    ensures |phone| == 13 && StartsWith(phone, "+91")
    ensures forall i :: 3 <= i < 13 ==> IsDigit(phone[i])
  {
    forall i | 3 <= i < 13
      ensures IsDigit(phone[i])
    {
      assert phone[3..][i - 3] == phone[i];
    }
  }

  /** The messages of the phone chain: `optional()` skips an absent phone. */
  function PhoneErrors(phone: Option<string>): seq<Invalid> {
    if phone.Some? && PhoneError(phone.value).Some? then [PhoneError(phone.value).value] else []
  }

  /** Everything registerValidators check. `isEmail()` is not modelled: its
      verdict is the parameter `emailSyntaxOk`. */
  predicate RegisterBodyValid(b: RegisterBody, emailSyntaxOk: bool) {
    && emailSyntaxOk && EndsWith(b.email, "@gmail.com")
    && |b.password| >= 8 && PasswordComplex(b.password)
    && b.name != Some("")
    && (b.phone.None? || PhoneError(b.phone.value).None?)
  }

  /** The phone chain reports only phone failures. */
  predicate PhoneFailure(e: Invalid) {
    e.PhonePrefixRequired? || e.PhoneTooShort? || e.PhoneFormat?
  }

  lemma PhoneErrorsArePhoneFailures(phone: Option<string>)
    ensures forall e :: e in PhoneErrors(phone) ==> PhoneFailure(e)
  {
  }

  /** The chain of registerValidators, for the verdicts of its five field
      validators and the failures of the phone chain. */
  function Reported(email: bool, gmail: bool, long: bool, complex: bool, named: bool, phone: seq<Invalid>): seq<Invalid> {
    Check(email, InvalidEmail) + Check(gmail, GmailRequired) + Check(long, PasswordTooShort)
    + Check(complex, PasswordTooSimple) + Check(named, NameCannotBeEmpty) + phone
  }

  lemma InCheck<T>(ok: bool, failure: T, x: T)
    ensures x in Check(ok, failure) <==> !ok && x == failure
  {
  }

  /** A failure other than a phone failure is in the chain's report exactly
      when its field validator fails. */
  lemma ReportedFailures(email: bool, gmail: bool, long: bool, complex: bool, named: bool, phone: seq<Invalid>, x: Invalid)
    requires forall e :: e in phone ==> PhoneFailure(e)
    requires !PhoneFailure(x)
    ensures x in Reported(email, gmail, long, complex, named, phone) <==>
      || (x == InvalidEmail && !email) || (x == GmailRequired && !gmail) || (x == PasswordTooShort && !long)
      || (x == PasswordTooSimple && !complex) || (x == NameCannotBeEmpty && !named)
  {
    InCheck(email, InvalidEmail, x);
    InCheck(gmail, GmailRequired, x);
    InCheck(long, PasswordTooShort, x);
    InCheck(complex, PasswordTooSimple, x);
    InCheck(named, NameCannotBeEmpty, x);
  }

  /** A phone failure is in the chain's report exactly when the phone chain
      reported it. */
  lemma ReportedPhoneFailures(email: bool, gmail: bool, long: bool, complex: bool, named: bool, phone: seq<Invalid>)
    ensures forall x :: PhoneFailure(x) ==> (x in Reported(email, gmail, long, complex, named, phone) <==> x in phone)
  {
    forall x | PhoneFailure(x)
      ensures x in Reported(email, gmail, long, complex, named, phone) <==> x in phone
    {
      InCheck(email, InvalidEmail, x);
      InCheck(gmail, GmailRequired, x);
      InCheck(long, PasswordTooShort, x);
      InCheck(complex, PasswordTooSimple, x);
      InCheck(named, NameCannotBeEmpty, x);
    }
  }

  /** registerValidators: every failing validator contributes its failure,
      in the order of the chain. */
  function RegisterErrors(b: RegisterBody, emailSyntaxOk: bool): (errors: seq<Invalid>)
    ensures errors == [] <==> RegisterBodyValid(b, emailSyntaxOk)
    ensures InvalidEmail in errors <==> !emailSyntaxOk
    ensures GmailRequired in errors <==> !EndsWith(b.email, "@gmail.com")
    ensures PasswordTooShort in errors <==> |b.password| < 8
    ensures PasswordTooSimple in errors <==> !PasswordComplex(b.password)
    ensures NameCannotBeEmpty in errors <==> b.name == Some("")
    ensures forall e :: PhoneFailure(e) ==> (e in errors <==> b.phone.Some? && PhoneError(b.phone.value) == Some(e))
    ensures PasswordRequired !in errors
  {
    var email, gmail, long := emailSyntaxOk, EndsWith(b.email, "@gmail.com"), |b.password| >= 8;
    var complex, named := PasswordComplex(b.password), b.name != Some("");
    var phone := PhoneErrors(b.phone);
    PhoneErrorsArePhoneFailures(b.phone);
    ReportedFailures(email, gmail, long, complex, named, phone, InvalidEmail);
    ReportedFailures(email, gmail, long, complex, named, phone, GmailRequired);
    ReportedFailures(email, gmail, long, complex, named, phone, PasswordTooShort);
    ReportedFailures(email, gmail, long, complex, named, phone, PasswordTooSimple);
    ReportedFailures(email, gmail, long, complex, named, phone, NameCannotBeEmpty);
    ReportedFailures(email, gmail, long, complex, named, phone, PasswordRequired);
    ReportedPhoneFailures(email, gmail, long, complex, named, phone);
    Reported(email, gmail, long, complex, named, phone)
  }

  /** loginValidators. */
  function LoginErrors(password: string, emailSyntaxOk: bool): (errors: seq<Invalid>)
    ensures errors == [] <==> emailSyntaxOk && password != ""
    ensures InvalidEmail in errors <==> !emailSyntaxOk
    ensures PasswordRequired in errors <==> password == ""
  {
    Check(emailSyntaxOk, InvalidEmail) + Check(password != "", PasswordRequired)
  }

  /** A handler's answer, and whether it reached the authentication service. */
  datatype AuthBody<T> = ValidationErrors(errors: seq<Invalid>) | Payload(result: T) | ErrorMessage(error: string)
  datatype AuthReply<T> = AuthReply(status: nat, body: AuthBody<T>, calledService: bool)

  /** `error.message || fallback`: a handler answers with the service's
      message, or with its own when that message is empty. */
  function MessageOr(m: string, fallback: string): string {
    if m != "" then m else fallback
  }

  /** register: 400 with the validation errors, else the service's result
      as 201 or its error as 400. `service` is what authService.register
      would give. */
  function Register<T>(b: RegisterBody, emailSyntaxOk: bool, service: Result<T, string>): (r: AuthReply<T>)
    ensures r.calledService <==> RegisterBodyValid(b, emailSyntaxOk)
    ensures !r.calledService ==> r == AuthReply(400, ValidationErrors(RegisterErrors(b, emailSyntaxOk)), false)
    ensures r.status == 201 <==> r.calledService && service.Success?
    ensures r.status == 201 ==> r.body == Payload(service.value)
    ensures r.status != 201 ==> r.status == 400
    ensures r.calledService && service.Failure? ==>
      r.body.ErrorMessage? && r.body.error != ""
      && (service.error != "" ==> r.body.error == service.error)
      && (service.error == "" ==> r.body.error == "Registration failed")
  {
    var errors := RegisterErrors(b, emailSyntaxOk);
    if errors != [] then AuthReply(400, ValidationErrors(errors), false)
    else match service
      case Success(v) => AuthReply(201, Payload(v), true)
      case Failure(m) => AuthReply(400, ErrorMessage(MessageOr(m, "Registration failed")), true)
  }

  /** login: 400 with the validation errors, else 200 or 401. */
  function Login<T>(password: string, emailSyntaxOk: bool, service: Result<T, string>): (r: AuthReply<T>)
    ensures r.calledService <==> emailSyntaxOk && password != ""
    ensures !r.calledService ==> r == AuthReply(400, ValidationErrors(LoginErrors(password, emailSyntaxOk)), false)
    ensures r.calledService && service.Success? ==> r == AuthReply(200, Payload(service.value), true)
    ensures r.calledService && service.Failure? ==>
      r.status == 401 && r.body.ErrorMessage? && r.body.error != ""
      && (service.error != "" ==> r.body.error == service.error)
      && (service.error == "" ==> r.body.error == "Login failed")
  {
    var errors := LoginErrors(password, emailSyntaxOk);
    if errors != [] then AuthReply(400, ValidationErrors(errors), false)
    else match service
      case Success(v) => AuthReply(200, Payload(v), true)
      case Failure(m) => AuthReply(401, ErrorMessage(MessageOr(m, "Login failed")), true)
  }

  /** Whatever reaches the service has a Gmail address, a password of at
      least 8 characters whose first line holds all four character classes,
      and no phone or a `+91` mobile number. */
  lemma RegisteredBodyShape<T>(b: RegisterBody, emailSyntaxOk: bool, service: Result<T, string>)
    requires Register(b, emailSyntaxOk, service).calledService
    ensures EndsWith(b.email, "@gmail.com") && |b.password| >= 8
    ensures HasCharWhere(b.password, IsLower) && HasCharWhere(b.password, IsUpper)
    ensures HasCharWhere(b.password, IsDigit) && HasCharWhere(b.password, IsSpecial)
    ensures b.phone.Some? && b.phone.value != "" ==> IsIndianMobile(b.phone.value)
  {
    FirstLineClassesHold(b.password);
  }

  /** A character class present in the first line is present in the password. */
  lemma FirstLineClassesHold(p: string)
    requires PasswordComplex(p)
    ensures HasCharWhere(p, IsLower) && HasCharWhere(p, IsUpper)
    ensures HasCharWhere(p, IsDigit) && HasCharWhere(p, IsSpecial)
  {
    var line := FirstLine(p);
    assert forall i :: 0 <= i < |line| ==> line[i] == p[i];
  }

  /** The first line ends at the first line terminator. */
  lemma {:induction false} FirstLineEndsAtBreak(s: string, k: nat)
    requires k < |s| && IsLineTerminator(s[k])
    requires forall i :: 0 <= i < k ==> !IsLineTerminator(s[i])
    ensures FirstLine(s) == s[..k]
  {
    if k > 0 {
      FirstLineEndsAtBreak(s[1..], k - 1);
      assert s[..k] == [s[0]] + s[1..][..k - 1];
    }
  }

  /** A password whose first line has no digit fails the server's rule,
      whatever follows the line break (e.g. "Abcdefgh\n1!", which holds
      every class). */
  lemma SecondLineDoesNotCount(first: string, rest: string)
    requires forall i :: 0 <= i < |first| ==> !IsLineTerminator(first[i]) && !IsDigit(first[i])
    ensures !PasswordComplex(first + "\n" + rest)
  {
    var p := first + "\n" + rest;
    FirstLineEndsAtBreak(p, |first|);
    assert p[..|first|] == first;
  }
}
