/** The registration form's submit handler: its checks run in a fixed
    order, the first failure sets the error and returns, and `register` is
    called only when every check passes. The client checks are looser than
    the server's. */
module RegisterPage {
  import opened Wrappers
  import opened Text
  import opened AuthController

  /** The form's own failures: one of the server's rules, checked again in
      the browser, or a confirmation that differs from the password. */
  datatype FormError = Rule(rule: Invalid) | PasswordsDoNotMatch

  function FormMessage(e: FormError): string {
    match e
    case Rule(rule) => Message(rule)
    case PasswordsDoNotMatch => "Passwords do not match"
  }

  const RegistrationFailed := "Registration failed. Please try again."

  predicate ClientPhoneOk(phone: string) {
    phone == "" || (StartsWith(phone, "+91") && |phone| >= 13)
  }

  /** `/[A-Z]/.test(p)` and the three other class tests: anywhere in `p`. */
  predicate ClientPasswordComplex(p: string) {
    HasCharWhere(p, IsUpper) && HasCharWhere(p, IsLower) && HasCharWhere(p, IsDigit) && HasCharWhere(p, IsSpecial)
  }

  predicate ClientAccepts(email: string, password: string, confirmPassword: string, phone: string) {
    && ClientPhoneOk(phone) && EndsWith(email, "@gmail.com") && password == confirmPassword
    && |password| >= 8 && ClientPasswordComplex(password)
  }

  /** The message of the first failing check, in the order phone prefix,
      phone length, email domain, confirmation, length, character classes. */
  function ClientError(email: string, password: string, confirmPassword: string, phone: string): (r: Option<FormError>)
    ensures r.None? <==> ClientAccepts(email, password, confirmPassword, phone)
    ensures r == Some(Rule(PhonePrefixRequired)) <==> phone != "" && !StartsWith(phone, "+91")
    ensures r == Some(Rule(PhoneTooShort)) <==> StartsWith(phone, "+91") && |phone| < 13
    ensures r == Some(Rule(GmailRequired)) <==> ClientPhoneOk(phone) && !EndsWith(email, "@gmail.com")
    ensures r == Some(PasswordsDoNotMatch) <==>
      ClientPhoneOk(phone) && EndsWith(email, "@gmail.com") && password != confirmPassword
    ensures r == Some(Rule(PasswordTooShort)) <==>
      ClientPhoneOk(phone) && EndsWith(email, "@gmail.com") && password == confirmPassword && |password| < 8
    ensures r == Some(Rule(PasswordTooSimple)) <==>
      ClientPhoneOk(phone) && EndsWith(email, "@gmail.com") && password == confirmPassword
      && |password| >= 8 && !ClientPasswordComplex(password)
  {
    if phone != "" && !StartsWith(phone, "+91") then Some(Rule(PhonePrefixRequired))
    else if phone != "" && |phone| < 13 then Some(Rule(PhoneTooShort))
    else if !EndsWith(email, "@gmail.com") then Some(Rule(GmailRequired))
    else if password != confirmPassword then Some(PasswordsDoNotMatch)
    else if |password| < 8 then Some(Rule(PasswordTooShort))
    else if !ClientPasswordComplex(password) then Some(Rule(PasswordTooSimple))
    else None
  }

  /** The form's state: the inputs, the error line, the loading flag and
      where the page navigated. */
  class RegisterForm {
    var email: string
    var password: string
    var confirmPassword: string
    var name: string
    var phone: string
    var error: string
    var loading: bool
    var navigatedTo: Option<string>

    constructor ()
      ensures email == "" && password == "" && confirmPassword == "" && name == "" && phone == ""
      ensures error == "" && !loading && navigatedTo.None?
    {
      email, password, confirmPassword, name, phone := "", "", "", "", "";
      error, loading, navigatedTo := "", false, None;
    }

    /** handleSubmit. `outcome` is what `register` gives: success, or the
        server's error text ("" when the response carries none). */
    method HandleSubmit(outcome: Result<(), string>) returns (calledRegister: bool)
      modifies this
      ensures email == old(email) && password == old(password) && confirmPassword == old(confirmPassword)
      ensures name == old(name) && phone == old(phone)
      ensures calledRegister <==> ClientError(email, password, confirmPassword, phone).None?
      ensures !calledRegister ==>
        error == FormMessage(ClientError(email, password, confirmPassword, phone).value)
        && loading == old(loading) && navigatedTo == old(navigatedTo)
      ensures calledRegister ==> !loading
      ensures calledRegister && outcome.Success? ==> error == "" && navigatedTo == Some("/dashboard")
      ensures calledRegister && outcome.Failure? ==>
        error == (if outcome.error != "" then outcome.error else RegistrationFailed)
        && navigatedTo == old(navigatedTo)
    {
      ghost var expected := ClientError(email, password, confirmPassword, phone);
      error := "";
      if phone != "" && !StartsWith(phone, "+91") {
        assert expected == Some(Rule(PhonePrefixRequired));
        error := FormMessage(Rule(PhonePrefixRequired));
        return false;
      }
      if phone != "" && |phone| < 13 {
        assert expected == Some(Rule(PhoneTooShort));
        error := FormMessage(Rule(PhoneTooShort));
        return false;
      }
      if !EndsWith(email, "@gmail.com") {
        assert expected == Some(Rule(GmailRequired));
        error := FormMessage(Rule(GmailRequired));
        return false;
      }
      if password != confirmPassword {
        assert expected == Some(PasswordsDoNotMatch);
        error := FormMessage(PasswordsDoNotMatch);
        return false;
      }
      if |password| < 8 {
        assert expected == Some(Rule(PasswordTooShort));
        error := FormMessage(Rule(PasswordTooShort));
        return false;
      }
      var hasUpperCase := HasCharWhere(password, IsUpper);
      var hasLowerCase := HasCharWhere(password, IsLower);
      var hasNumbers := HasCharWhere(password, IsDigit);
      var hasSpecialChar := HasCharWhere(password, IsSpecial);
      if !hasUpperCase || !hasLowerCase || !hasNumbers || !hasSpecialChar {
        assert expected == Some(Rule(PasswordTooSimple));
        error := FormMessage(Rule(PasswordTooSimple));
        return false;
      }
      assert expected.None?;
      loading := true;
      calledRegister := true;
      match outcome {
        case Success(_) =>
          navigatedTo := Some("/dashboard");
        case Failure(m) =>
          error := if m != "" then m else RegistrationFailed;
      }
      loading := false;
    }
  }

  /** Every registration the server accepts, with a matching confirmation,
      also passes the client checks. */
  lemma ServerAcceptedPassesClient(email: string, password: string, phone: string, name: Option<string>, emailSyntaxOk: bool)
    requires RegisterBodyValid(RegisterBody(email, password, name, Some(phone)), emailSyntaxOk)
    ensures ClientError(email, password, password, phone).None?
  {
    FirstLineClassesHold(password);
    if phone != "" {
      AcceptedPhoneShape(phone);
    }
  }

  /** The converse fails: the client lets a phone with letters after `+91`
      through, and the server refuses it. */
  lemma ClientAcceptsLetterPhone()
    ensures ClientError("asha@gmail.com", "Sweet#2024", "Sweet#2024", "+91abcdefghij").None?
    ensures PhoneError("+91abcdefghij") == Some(PhoneFormat)
  {
    var p := "Sweet#2024";
    assert IsUpper(p[0]) && IsLower(p[1]) && IsSpecial(p[5]) && IsDigit(p[6]);
    var phone := "+91abcdefghij";
    assert phone[..3] == "+91";
    assert !IsDigit(phone[3..][0]);
    assert "asha@gmail.com"[4..] == "@gmail.com";
  }

  /** The Full Name input is not required and the client does not check
      it, so a blank name is posted as `""`, which the server's
      `optional().notEmpty()` refuses. */
  lemma ClientAcceptsBlankName(emailSyntaxOk: bool)
    ensures ClientError("asha@gmail.com", "Sweet#2024", "Sweet#2024", "+919876543210").None?
    ensures NameCannotBeEmpty in RegisterErrors(RegisterBody("asha@gmail.com", "Sweet#2024", Some(""), Some("+919876543210")), emailSyntaxOk)
  {
    var p := "Sweet#2024";
    assert IsUpper(p[0]) && IsLower(p[1]) && IsSpecial(p[5]) && IsDigit(p[6]);
    var phone := "+919876543210";
    assert phone[..3] == "+91";
    assert "asha@gmail.com"[4..] == "@gmail.com";
  }

  /** A character found on either side of the line break is found in the
      joined password. */
  lemma CharOfEitherLine(first: string, rest: string, f: char -> bool)
    requires HasCharWhere(first, f) || HasCharWhere(rest, f)
    ensures HasCharWhere(first + "\n" + rest, f)
  {
    var p := first + "\n" + rest;
    if HasCharWhere(first, f) {
      var i :| 0 <= i < |first| && f(first[i]);
      assert p[i] == first[i];
    } else {
      var i :| 0 <= i < |rest| && f(rest[i]);
      assert p[|first| + 1 + i] == rest[i];
    }
  }

  /** Nor does the client apply the first-line limit of the server's
      password rule: a first line of letters and a second line with the
      digit and the special character pass the client and fail the server. */
  lemma ClientAcceptsSecondLineClasses(email: string, first: string, rest: string)
    requires EndsWith(email, "@gmail.com") && |first| >= 8
    requires forall i :: 0 <= i < |first| ==> !IsLineTerminator(first[i]) && !IsDigit(first[i])
    requires HasCharWhere(first, IsUpper) && HasCharWhere(first, IsLower)
    requires HasCharWhere(rest, IsDigit) && HasCharWhere(rest, IsSpecial)
    ensures var p := first + "\n" + rest;
      ClientError(email, p, p, "").None? && !PasswordComplex(p)
  {
    var p := first + "\n" + rest;
    CharOfEitherLine(first, rest, IsUpper);
    CharOfEitherLine(first, rest, IsLower);
    CharOfEitherLine(first, rest, IsDigit);
    CharOfEitherLine(first, rest, IsSpecial);
    assert ClientAccepts(email, p, p, "");
    SecondLineDoesNotCount(first, rest);
  }
}
