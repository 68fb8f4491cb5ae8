/**
 * The sign-in / register form: the field validator, the variant toggle and
 * the gate in front of `signIn` and `POST /api/register`.
 */
module Auth {
  import opened Wrappers
  import opened JsText
  import Server

  datatype Variant = Login | Register

  /** The variant after `toggleVariant`. */
  function Toggled(v: Variant): (r: Variant)
    ensures r != v
  {
    if v == Login then Register else Login
  }

  /**
   * A match of `\S+@\S+\.\S+` spanning `s[a..e]`: non-space runs split by the
   * `@` at `p` and the `.` at `d`.
   */
  predicate EmailMatchAt(s: string, a: int, p: int, d: int, e: int) {
    0 <= a < p && p + 1 < d && d + 1 < e <= |s| &&
    s[p] == '@' && s[d] == '.' &&
    NoSpace(s[a..p]) && NoSpace(s[p + 1..d]) && NoSpace(s[d + 1..e])
  }

  /** `/\S+@\S+\.\S+/.test(s)`: the pattern is not anchored, so any substring may match. */
  ghost predicate MatchesEmailPattern(s: string) {
    exists a, p, d, e :: EmailMatchAt(s, a, p, d, e)
  }

  /** The shape the pattern needs around an `@` at `p` and a `.` at `d`. */
  predicate ShapeAt(s: string, p: int, d: int) {
    1 <= p && p + 2 <= d && d + 2 <= |s| &&
    s[p] == '@' && s[d] == '.' &&
    !IsJsSpace(s[p - 1]) && NoSpace(s[p + 1..d]) && !IsJsSpace(s[d + 1])
  }

  /** The executable form of the pattern test. */
  predicate HasEmailShape(s: string) {
    exists p, d :: 0 <= p < |s| && 0 <= d < |s| && ShapeAt(s, p, d)
  }

  /** The executable test agrees with the pattern's meaning, in both directions. */
  lemma EmailShapeIff(s: string)
    ensures HasEmailShape(s) <==> MatchesEmailPattern(s)
  {
    if HasEmailShape(s) {
      var p, d :| 0 <= p < |s| && 0 <= d < |s| && ShapeAt(s, p, d);
      assert NoSpace(s[p - 1..p]) by { assert s[p - 1..p][0] == s[p - 1]; }
      assert NoSpace(s[d + 1..d + 2]) by { assert s[d + 1..d + 2][0] == s[d + 1]; }
      assert EmailMatchAt(s, p - 1, p, d, d + 2);
    }
    if MatchesEmailPattern(s) {
      var a, p, d, e :| EmailMatchAt(s, a, p, d, e);
      assert s[a..p][p - 1 - a] == s[p - 1];
      assert s[d + 1..e][0] == s[d + 1];
      assert ShapeAt(s, p, d);
    }
  }

  /** A string the pattern accepts is non-empty and holds an `@`. */
  lemma PatternNeedsAt(s: string)
    requires MatchesEmailPattern(s)
    ensures s != "" && '@' in s
  {
    var a, p, d, e :| EmailMatchAt(s, a, p, d, e);
    assert s[p] == '@';
  }

  /** Because the pattern is unanchored, text around an address does not stop it matching. */
  lemma PatternIsUnanchored()
    ensures MatchesEmailPattern("not an email: a@b.c !")
  {
    var s := "not an email: a@b.c !";
    assert s[14..15] == "a" && s[16..17] == "b" && s[18..19] == "c";
    assert EmailMatchAt(s, 14, 15, 17, 19);
  }

  const EmailRequired := "Email is required"
  const InvalidEmail := "Invalid email format"
  const PasswordRequired := "Password is required"
  const PasswordTooShort := "Password must be at least 6 characters"
  const UsernameRequired := "Username is required"

  /**
   * The error map `validateFields` computes: at most one message per field, a
   * length check on the UTF-16 length, and a name check only when registering.
   */
  function FieldErrors(email: string, password: string, name: string, variant: Variant): (errors: map<string, string>)
    ensures errors.Keys <= {"email", "password", "name"}
    ensures email == "" ==> "email" in errors && errors["email"] == EmailRequired
    ensures email != "" && !MatchesEmailPattern(email) ==> "email" in errors && errors["email"] == InvalidEmail
    ensures MatchesEmailPattern(email) ==> "email" !in errors
    ensures password == "" ==> "password" in errors && errors["password"] == PasswordRequired
    ensures password != "" && Utf16Length(password) < 6 ==>
      "password" in errors && errors["password"] == PasswordTooShort
    ensures Utf16Length(password) >= 6 ==> "password" !in errors
    ensures "name" in errors <==> variant == Register && name == ""
    ensures "name" in errors ==> errors["name"] == UsernameRequired
  {
    EmailShapeIff(email);
    var withEmail :=
      if email == "" then map["email" := EmailRequired]
      else if !HasEmailShape(email) then map["email" := InvalidEmail]
      else map[];
    var withPassword :=
      if password == "" then withEmail["password" := PasswordRequired]
      else if Utf16Length(password) < 6 then withEmail["password" := PasswordTooShort]
      else withEmail;
    if variant == Register && name == "" then withPassword["name" := UsernameRequired] else withPassword
  }

  /** What a submission does once validation has run. */
  datatype Submission =
    | Blocked(toast: string)
    | SignIn(email: string, password: string)
    | PostRegister(email: string, name: string, password: string)

  const FixErrors := "Please fix the errors in the form"

  class AuthForm {
    var email: string
    var name: string
    var password: string
    var errors: map<string, string>
    var variant: Variant

    constructor ()
      ensures email == "" && name == "" && password == ""
      ensures errors == map[] && variant == Login
    {
      email, name, password := "", "", "";
      errors := map[];
      variant := Login;
    }

    method SetEmail(value: string)
      modifies this`email
      ensures email == value
    {
      email := value;
    }

    method SetName(value: string)
      modifies this`name
      ensures name == value
    {
      name := value;
    }

    method SetPassword(value: string)
      modifies this`password
      ensures password == value
    {
      password := value;
    }

    /** `toggleVariant`: flips the variant and clears every error. */
    method ToggleVariant()
      modifies this`variant, this`errors
      ensures variant == Toggled(old(variant)) && errors == map[]
    {
      variant := if variant == Login then Register else Login;
      errors := map[];
    }

    /** `validateFields`: builds the error map, stores it, and reports whether it is empty. */
    method ValidateFields() returns (ok: bool)
      modifies this`errors
      ensures errors == FieldErrors(email, password, name, variant)
      ensures ok <==> errors == map[]
    {
      var newErrors: map<string, string> := map[];
      if email == "" {
        newErrors := newErrors["email" := EmailRequired];
      } else if !HasEmailShape(email) {
        newErrors := newErrors["email" := InvalidEmail];
      }
      if password == "" {
        newErrors := newErrors["password" := PasswordRequired];
      } else if Utf16Length(password) < 6 {
        newErrors := newErrors["password" := PasswordTooShort];
      }
      if variant == Register && name == "" {
        newErrors := newErrors["name" := UsernameRequired];
      }
      errors := newErrors;
      ok := |newErrors| == 0;
      if !ok {
        assert newErrors != map[];
      }
    }

    /** `login`: validation failure stops it before `signIn` is called. */
    method SignInClicked() returns (s: Submission)
      modifies this`errors
      ensures errors == FieldErrors(email, password, name, variant)
      ensures s == if errors == map[] then SignIn(email, password) else Blocked(FixErrors)
    {
      var ok := ValidateFields();
      if !ok {
        return Blocked(FixErrors);
      }
      return SignIn(email, password);
    }

    /**
     * `register`: validation failure stops it before the POST; a POST it does
     * send always passes the server's input check.
     */
    method RegisterClicked() returns (s: Submission)
      modifies this`errors
      ensures errors == FieldErrors(email, password, name, variant)
      ensures s == if errors == map[] then PostRegister(email, name, password) else Blocked(FixErrors)
      ensures s.PostRegister? && variant == Register ==>
        Server.AcceptsInput(Server.RegisterRequest("POST", Some(email), Some(name), Some(password)))
    {
      var ok := ValidateFields();
      if !ok {
        return Blocked(FixErrors);
      }
      if variant == Register {
        ClientCheckImpliesServerCheck(email, name, password);
      }
      return PostRegister(email, name, password);
    }

    /** The form's button: `login` in the login variant, `register` otherwise. */
    method Submit() returns (s: Submission)
      modifies this`errors
      ensures errors == FieldErrors(email, password, name, variant)
      ensures errors != map[] ==> s == Blocked(FixErrors)
      ensures errors == map[] && variant == Login ==> s == SignIn(email, password)
      ensures errors == map[] && variant == Register ==> s == PostRegister(email, name, password)
    {
      if variant == Login {
        s := SignInClicked();
      } else {
        s := RegisterClicked();
      }
    }
  }

  /** Toggling twice gives back the variant one started from. */
  lemma ToggleTwice(v: Variant)
    ensures Toggled(Toggled(v)) == v
  {
  }

  /** The login variant never reports a name error, whatever the name. */
  lemma LoginHasNoNameError(email: string, password: string, name: string)
    ensures "name" !in FieldErrors(email, password, name, Login)
  {
  }

  /**
   * Register input the form accepts also passes `/api/register`'s 400 check:
   * the email is non-empty and holds an `@`, the name and password are non-empty.
   */
  lemma ClientCheckImpliesServerCheck(email: string, name: string, password: string)
    requires FieldErrors(email, password, name, Register) == map[]
    ensures Server.AcceptsInput(Server.RegisterRequest("POST", Some(email), Some(name), Some(password)))
  {
    assert "email" !in FieldErrors(email, password, name, Register);
    assert MatchesEmailPattern(email);
    PatternNeedsAt(email);
  }

  /** The server is laxer than the form: it takes a password the form refuses as too short. */
  lemma ServerAcceptsWhatFormRefuses()
    ensures Server.AcceptsInput(Server.RegisterRequest("POST", Some("a@b.c"), Some("n"), Some("x")))
    ensures FieldErrors("a@b.c", "x", "n", Register) == map["password" := PasswordTooShort]
  {
    var s := "a@b.c";
    assert s[0..1] == "a" && s[2..3] == "b" && s[4..5] == "c";
    assert EmailMatchAt(s, 0, 1, 3, 5);
    assert '@' == s[1];
  }
}
