/** The registration form (`src/app/register/page.tsx`): the checks made
    before the sign-up call, in their order, and the call itself. */
module Register {
  import opened Utils

  datatype RegisterForm = RegisterForm(
    email: string,
    password: string,
    confirmPassword: string,
    fullName: string,
    phone: string)

  /** What `signUp` is called with: the credentials and the profile
      metadata. */
  datatype SignUpRequest = SignUpRequest(
    email: string,
    password: string,
    fullName: string,
    phone: string,
    role: string)

  /** The auth provider's answer: a user (or none, when confirmation is
      pending without one), or an error with its message. */
  datatype SignUpOutcome = SignedUp(hasUser: bool) | SignUpFailed(message: string)

  const PasswordMismatchError: string := "Passwords do not match"
  const InvalidPhoneError: string :=
    "Please enter a valid phone number with country code (e.g., +1234567890)"
  const FallbackError: string := "Failed to register"

  /** The outcome of the checks: the first failure, or the request to send. */
  datatype Validation = PasswordMismatch | InvalidPhone | Ready(request: SignUpRequest)

  /** The checks of `handleSubmit`, in order: the passwords first, then the
      phone number. Only a form passing both yields a request, and it always
      asks for the `EMPLOYEE` role with the cleaned number. */
  function ValidateRegistration(f: RegisterForm): (v: Validation)
    ensures v == PasswordMismatch <==> f.password != f.confirmPassword
    ensures v == InvalidPhone <==> f.password == f.confirmPassword && !ValidatePhoneNumber(f.phone).isValid
    ensures v.Ready? ==>
              v.request.role == "EMPLOYEE" && v.request.phone == Clean(f.phone) &&
              MatchesPhonePattern(v.request.phone) &&
              v.request.email == f.email && v.request.password == f.password &&
              v.request.fullName == f.fullName
  {
    if f.password != f.confirmPassword then PasswordMismatch
    else
      var check := ValidatePhoneNumber(f.phone);
      if !check.isValid then InvalidPhone
      else Ready(SignUpRequest(f.email, f.password, f.fullName, check.formattedNumber, "EMPLOYEE"))
  }

  /** A password mismatch is reported whatever the phone number is. */
  lemma PasswordCheckedFirst(f: RegisterForm, phone: string)
    requires f.password != f.confirmPassword
    ensures ValidateRegistration(f.(phone := phone)) == PasswordMismatch
  {
  }

  /** The number in the error message's own example has ten digits and is
      itself refused. */
  lemma MessageExampleRefused()
    ensures !ValidatePhoneNumber("+1234567890").isValid
  {
    var example := "+1234567890";
    assert |example| == 11;
    assert AllPhoneChars(example);
    CleanKeepsPhoneStrings(example);
  }

  /** The register page's state; `signUps` records every sign-up call issued. */
  class RegisterPage {
    var form: RegisterForm
    var error: string
    var isLoading: bool
    var signUps: seq<SignUpRequest>
    var registered: bool

    constructor (form0: RegisterForm)
      ensures form == form0 && error == "" && !isLoading && signUps == [] && !registered
    {
      form, error, isLoading, signUps, registered := form0, "", false, [], false;
    }

    /** `handleSubmit`: a failed check sets its message and returns before
        any sign-up call; a passing form issues exactly one call, whose error
        message (or the fallback) becomes the page's error. The loading flag
        is cleared on every exit. */
    method HandleSubmit(outcome: SignUpOutcome)
      modifies this
      ensures !isLoading && form == old(form)
      ensures ValidateRegistration(form) == PasswordMismatch ==>
                error == PasswordMismatchError && signUps == old(signUps) && registered == old(registered)
      ensures ValidateRegistration(form) == InvalidPhone ==>
                error == InvalidPhoneError && signUps == old(signUps) && registered == old(registered)
      ensures ValidateRegistration(form).Ready? ==>
                signUps == old(signUps) + [ValidateRegistration(form).request]
      ensures ValidateRegistration(form).Ready? && outcome.SignUpFailed? ==>
                error == (if outcome.message == "" then FallbackError else outcome.message) &&
                registered == old(registered)
      ensures ValidateRegistration(form).Ready? && outcome.SignedUp? ==>
                error == "" && registered == (old(registered) || outcome.hasUser)
    {
      isLoading := true;
      error := "";
      if form.password != form.confirmPassword {
        error := PasswordMismatchError;
        isLoading := false;
        return;
      }
      var check := ValidatePhoneNumber(form.phone);
      if !check.isValid {
        error := InvalidPhoneError;
        isLoading := false;
        return;
      }
      signUps := signUps + [SignUpRequest(form.email, form.password, form.fullName, check.formattedNumber, "EMPLOYEE")];
      match outcome {
        case SignUpFailed(message) =>
          error := if message == "" then FallbackError else message;
        case SignedUp(hasUser) =>
          if hasUser {
            registered := true;
          }
      }
      isLoading := false;
    }
  }
}
