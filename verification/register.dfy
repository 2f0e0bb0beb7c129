/**
  Account creation (`controllers/register.js`, `js/register.js`): the
  password and e-mail patterns, the order of the form checks, the profile
  document written for a new account, and the create-only-if-absent rule
  of the social sign-ins.
 */
module Register {

  import opened Common
  import Text
  import Utils

  // ---------------------------------------------------------------------
  // The strong-password pattern of `controllers/register.js`
  // ---------------------------------------------------------------------

  predicate IsLowerAscii(c: char) { 'a' <= c <= 'z' }
  predicate IsUpperAscii(c: char) { 'A' <= c <= 'Z' }
  predicate IsDigitAscii(c: char) { '0' <= c <= '9' }
  predicate IsSymbol(c: char) { c == '@' || c == '$' || c == '!' || c == '%' || c == '*' || c == '?' || c == '&' }

  /** The character class `[A-Za-z\d@$!%*?&]`. */
  predicate InStrongClass(c: char)
  {
    IsLowerAscii(c) || IsUpperAscii(c) || IsDigitAscii(c) || IsSymbol(c)
  }

  /**
    What the strong-password pattern accepts: at least 8 characters, all
    from the class, with a lower-case letter, an upper-case letter, a digit
    and a symbol among them.
   */
  predicate StrongPassword(p: string)
  {
    && |p| >= 8
    && (forall k :: 0 <= k < |p| ==> InStrongClass(p[k]))
    && (exists k :: 0 <= k < |p| && IsLowerAscii(p[k]))
    && (exists k :: 0 <= k < |p| && IsUpperAscii(p[k]))
    && (exists k :: 0 <= k < |p| && IsDigitAscii(p[k]))
    && (exists k :: 0 <= k < |p| && IsSymbol(p[k]))
  }

  /** `strongPasswordRegex.test(p)`: one pass that tracks the four lookaheads and the class. */
  method TestStrongPassword(p: string) returns (ok: bool)
    ensures ok <==> StrongPassword(p)
  {
    var inClass, lower, upper, digit, symbol := true, false, false, false, false;
    var i := 0;
    while i < |p|
      invariant 0 <= i <= |p|
      invariant inClass <==> forall k :: 0 <= k < i ==> InStrongClass(p[k])
      invariant lower <==> exists k :: 0 <= k < i && IsLowerAscii(p[k])
      invariant upper <==> exists k :: 0 <= k < i && IsUpperAscii(p[k])
      invariant digit <==> exists k :: 0 <= k < i && IsDigitAscii(p[k])
      invariant symbol <==> exists k :: 0 <= k < i && IsSymbol(p[k])
    {
      var c := p[i];
      inClass := inClass && InStrongClass(c);
      lower := lower || IsLowerAscii(c);
      upper := upper || IsUpperAscii(c);
      digit := digit || IsDigitAscii(c);
      symbol := symbol || IsSymbol(c);
      i := i + 1;
    }
    ok := |p| >= 8 && inClass && lower && upper && digit && symbol;
  }

  /** "Passw0rd!" passes the pattern; without its symbol it fails. */
  lemma StrongPasswordExamples()
    ensures StrongPassword("Passw0rd!")
    ensures !StrongPassword("Passw0rdd")
  {
    var p := "Passw0rd!";
    assert IsLowerAscii(p[1]) && IsUpperAscii(p[0]) && IsDigitAscii(p[5]) && IsSymbol(p[8]);
    var q := "Passw0rdd";
    assert forall k :: 0 <= k < |q| ==> !IsSymbol(q[k]);
  }

  // ---------------------------------------------------------------------
  // The e-mail pattern of `js/register.js`
  // ---------------------------------------------------------------------

  /** `[^\s@]`. */
  predicate PlainChar(c: char)
  {
    !Text.IsSpace(c) && c != '@'
  }

  predicate Plain(s: string)
  {
    forall k :: 0 <= k < |s| ==> PlainChar(s[k])
  }

  /** A '.' that is neither the first nor the last character. */
  predicate InnerDot(d: string)
  {
    exists j :: 0 < j < |d| - 1 && d[j] == '.'
  }

  /**
    What `/^[^\s@]+@[^\s@]+\.[^\s@]+$/` accepts: a non-empty local part
    and a domain, both free of '@' and white space, split by an '@', with a
    '.' inside the domain.
   */
  predicate EmailShape(s: string)
  {
    exists i :: 0 < i < |s| && s[i] == '@' && Plain(s[..i]) && Plain(s[i + 1..]) && InnerDot(s[i + 1..])
  }

  /** The local part ends at the first character outside `[^\s@]`; a witness '@' can only be there. */
  lemma OnlyWitness(s: string, i: nat, p: nat)
    requires i < |s| && Plain(s[..i]) && !PlainChar(s[i])
    requires p < |s| && s[p] == '@' && Plain(s[..p])
    ensures p == i
  {
    if p > i {
      PlainPrefixAt(s, p, i);
    } else if p < i {
      PlainPrefixAt(s, i, p);
    }
  }

  lemma PlainPrefixAt(s: string, n: nat, k: nat)
    requires k < n <= |s|
    ensures Plain(s[..n]) ==> PlainChar(s[k])
  {
    if Plain(s[..n]) {
      assert s[..n][k] == s[k];
    }
  }

  /** `emailPattern.test(s)`: a scan of the local part, then of the domain. */
  method TestEmail(s: string) returns (ok: bool)
    ensures ok <==> EmailShape(s)
  {
    var i := 0;
    while i < |s| && PlainChar(s[i])
      invariant 0 <= i <= |s| && Plain(s[..i])
    {
      i := i + 1;
    }
    if i == |s| {
      assert s[..i] == s;
      return false;
    }
    if i == 0 || s[i] != '@' {
      forall p | 0 < p < |s| && s[p] == '@' && Plain(s[..p]) ensures false {
        OnlyWitness(s, i, p);
      }
      return false;
    }
    var d := s[i + 1..];
    var j := 0;
    var dot := false;
    while j < |d| && PlainChar(d[j])
      invariant 0 <= j <= |d| && Plain(d[..j])
      invariant dot <==> exists m :: 0 < m && m + 1 < j && d[m] == '.'
    {
      dot := dot || (0 < j - 1 && d[j - 1] == '.');
      j := j + 1;
    }
    if j < |d| {
      forall p | 0 < p < |s| && s[p] == '@' && Plain(s[..p]) ensures !Plain(s[p + 1..]) {
        OnlyWitness(s, i, p);
        assert d[j] == s[p + 1..][j];
      }
      return false;
    }
    assert d[..j] == d;
    forall p | 0 < p < |s| && s[p] == '@' && Plain(s[..p]) ensures p == i {
      OnlyWitness(s, i, p);
    }
    ok := dot;
  }

  /** "a@b.co" has the shape; without the dot, or with the dot right after the '@', it does not. */
  lemma EmailExamples()
    ensures EmailShape("a@b.co")
    ensures !EmailShape("a@bco")
    ensures !EmailShape("a@.co")
  {
    var s := "a@b.co";
    assert s[..1] == "a" && s[2..] == "b.co";
    assert "b.co"[1] == '.';
    forall p | 0 < p < 5 && "a@bco"[p] == '@' ensures p == 1 { }
    assert "a@bco"[2..] == "bco";
    assert !InnerDot("bco");
    forall p | 0 < p < 5 && "a@.co"[p] == '@' ensures p == 1 { }
    assert "a@.co"[2..] == ".co";
    assert !InnerDot(".co");
  }

  // ---------------------------------------------------------------------
  // The submit handlers
  // ---------------------------------------------------------------------

  /** The profile document a new account gets; the e-mail form of `js/register.js` writes no name. */
  datatype Profile = Profile(uid: string, name: Option<string>, email: string, role: string)

  /** What a successful submit asks for: the account to create, then its profile. */
  datatype Signup = Signup(email: string, password: string, name: Option<string>)

  function ProfileOf(s: Signup, uid: string): (p: Profile)
    ensures p.role == "customer" && p.uid == uid && p.email == s.email && p.name == s.name
  {
    Profile(uid, s.name, s.email, "customer")
  }

  datatype RegisterError = MissingField | PasswordMismatch | WeakPassword

  /**
    The submit handler of `controllers/register.js`: name and e-mail are
    trimmed, the passwords are not; an empty field, then a mismatch, then a
    weak password stops the submit.
   */
  function SubmitRegister(rawName: string, rawEmail: string, password: string, confirm: string)
    : (r: Result<Signup, RegisterError>)
    ensures r == Failure(MissingField) <==>
      Text.Trim(rawName) == "" || Text.Trim(rawEmail) == "" || password == "" || confirm == ""
    ensures r == Failure(PasswordMismatch) <==>
      Text.Trim(rawName) != "" && Text.Trim(rawEmail) != "" && password != "" && confirm != "" && password != confirm
    ensures r == Failure(WeakPassword) <==>
      Text.Trim(rawName) != "" && Text.Trim(rawEmail) != "" && password != "" && password == confirm && !StrongPassword(password)
    ensures r.Success? ==> r.value == Signup(Text.Trim(rawEmail), password, Some(Text.Trim(rawName)))
  {
    var name := Text.Trim(rawName);
    var email := Text.Trim(rawEmail);
    if name == "" || email == "" || password == "" || confirm == "" then Failure(MissingField)
    else if password != confirm then Failure(PasswordMismatch)
    else if !StrongPassword(password) then Failure(WeakPassword)
    else Success(Signup(email, password, Some(name)))
  }

  /** An accepted submit carries no surrounding white space and a strong, confirmed password. */
  lemma RegisterAcceptsOnlyClean(rawName: string, rawEmail: string, password: string, confirm: string)
    ensures SubmitRegister(rawName, rawEmail, password, confirm).Success? ==>
      var s := SubmitRegister(rawName, rawEmail, password, confirm).value;
      && Text.Trim(s.email) == s.email && Text.Trim(s.name.value) == s.name.value
      && !Text.AllSpace(rawName) && !Text.AllSpace(rawEmail)
      && password == confirm && StrongPassword(password)
  {
    Text.TrimIdempotent(rawName);
    Text.TrimIdempotent(rawEmail);
    Text.TrimEmptyIffAllSpace(rawName);
    Text.TrimEmptyIffAllSpace(rawEmail);
  }

  /** The message keys the account-creation error handler looks up. */
  const RegisterKeys: set<string> := {"email_exists", "invalid_email", "weak_password", "network_error"}

  /** The message key each handled account-creation error code selects. */
  function RegisterErrorKey(code: string): (k: Option<string>)
    ensures k.Some? <==> code in {"auth/email-already-in-use", "auth/invalid-email", "auth/weak-password", "auth/network-request-failed"}
    ensures k.Some? ==> k.value in RegisterKeys
  {
    if code == "auth/email-already-in-use" then Some("email_exists")
    else if code == "auth/invalid-email" then Some("invalid_email")
    else if code == "auth/weak-password" then Some("weak_password")
    else if code == "auth/network-request-failed" then Some("network_error")
    else None
  }

  const GenericRegisterError: string := "فشل إنشاء الحساب. يرجى المحاولة مرة أخرى."

  /** The message after a failed account creation: translated for a handled code, the generic one otherwise. */
  function RegisterErrorMessage(translations: map<string, string>, code: string): (m: string)
    ensures RegisterErrorKey(code).None? ==> m == GenericRegisterError
    ensures RegisterErrorKey(code).Some? ==> m == Utils.T(translations, RegisterErrorKey(code).value)
  {
    match RegisterErrorKey(code)
    case None => GenericRegisterError
    case Some(k) => Utils.T(translations, k)
  }

  /** A translation under which the four handled messages stay apart from each other and from the generic one. */
  predicate SeparatesRegisterErrors(translations: map<string, string>)
  {
    && Utils.KeepsApart(translations, RegisterKeys)
    && forall k :: k in RegisterKeys ==> Utils.T(translations, k) != GenericRegisterError
  }

  /** With nothing translated every key is shown as itself, and none of them is the generic message. */
  lemma UntranslatedSeparatesRegisterErrors()
    ensures SeparatesRegisterErrors(map[])
  {
    Utils.UntranslatedKeepsApart(RegisterKeys);
  }

  /**
    Under every translation that keeps the four message keys apart and away
    from the generic message, handled codes select messages distinct from
    each other and from the generic one.
   */
  lemma RegisterErrorsDistinct(translations: map<string, string>, a: string, b: string)
    requires SeparatesRegisterErrors(translations)
    requires RegisterErrorKey(a).Some? && RegisterErrorKey(b).Some?
    ensures RegisterErrorMessage(translations, a) != GenericRegisterError
    ensures a != b ==> RegisterErrorMessage(translations, a) != RegisterErrorMessage(translations, b)
  {
    var ka, kb := RegisterErrorKey(a).value, RegisterErrorKey(b).value;
    assert ka in RegisterKeys && kb in RegisterKeys;
    assert a != b ==> ka != kb;
  }

  datatype JsRegisterError = InvalidEmail | EmptyPassword | ShortPassword | Mismatch

  /**
    The e-mail form of `js/register.js`: the trimmed e-mail must match the
    pattern, then the password must be non-empty, at least 6 characters,
    and equal to its confirmation.
   */
  function JsSubmitRegister(rawEmail: string, password: string, confirm: string): (r: Result<Signup, JsRegisterError>)
    ensures r == Failure(InvalidEmail) <==> !EmailShape(Text.Trim(rawEmail))
    ensures r == Failure(EmptyPassword) <==> EmailShape(Text.Trim(rawEmail)) && password == ""
    ensures r == Failure(ShortPassword) <==> EmailShape(Text.Trim(rawEmail)) && 0 < |password| < 6
    ensures r == Failure(Mismatch) <==> EmailShape(Text.Trim(rawEmail)) && |password| >= 6 && password != confirm
    ensures r.Success? ==> r.value == Signup(Text.Trim(rawEmail), password, None)
  {
    var email := Text.Trim(rawEmail);
    if !EmailShape(email) then Failure(InvalidEmail)
    else if password == "" then Failure(EmptyPassword)
    else if |password| < 6 then Failure(ShortPassword)
    else if password != confirm then Failure(Mismatch)
    else Success(Signup(email, password, None))
  }

  /** A password the strong pattern accepts always gets past the length checks of the other form. */
  lemma StrongPasswordPassesJsChecks(rawEmail: string, password: string)
    ensures StrongPassword(password) && EmailShape(Text.Trim(rawEmail)) ==> JsSubmitRegister(rawEmail, password, password).Success?
  {
  }

  /**
    Google and Facebook sign-in in `js/register.js`: the profile is written
    only when the store has none for the user. `store` maps user ids to
    profile documents.
   */
  function SocialSignIn(store: map<string, Profile>, uid: string, email: string): (s: map<string, Profile>)
    ensures uid in s && s.Keys == store.Keys + {uid}
    ensures uid in store ==> s == store
    ensures uid !in store ==> s[uid] == Profile(uid, None, email, "customer")
    ensures forall k :: k in store && k != uid ==> s[k] == store[k]
  {
    if uid in store then store else store[uid := Profile(uid, None, email, "customer")]
  }

  /** An existing profile, its role included, is never overwritten, and a second sign-in changes nothing. */
  lemma SocialSignInKeepsProfiles(store: map<string, Profile>, uid: string, email: string, email2: string)
    ensures forall k :: k in store ==> SocialSignIn(store, uid, email)[k] == store[k]
    ensures SocialSignIn(SocialSignIn(store, uid, email), uid, email2) == SocialSignIn(store, uid, email)
  {
  }
}
