/** The credential rules of the registration and login screens: the
    password-strength checks and their messages, the colour of the strength
    bar, the "Save & Continue" decision, the hex digest stored for a
    password, and the login comparison against what registration stored.
    Character classes are taken over ASCII. */
module Credentials {
  import opened Wrappers
  import opened Hex
  import opened Environment

  predicate IsUppercase(c: char) { 'A' <= c <= 'Z' }
  predicate IsLowercase(c: char) { 'a' <= c <= 'z' }
  predicate IsNumber(c: char) { '0' <= c <= '9' }

  const SpecialCharacters: string := "!@#$%^&*()"

  predicate IsSpecial(c: char) { c in SpecialCharacters }

  predicate HasUppercase(p: string) { exists i :: 0 <= i < |p| && IsUppercase(p[i]) }
  predicate HasLowercase(p: string) { exists i :: 0 <= i < |p| && IsLowercase(p[i]) }
  predicate HasNumber(p: string) { exists i :: 0 <= i < |p| && IsNumber(p[i]) }
  predicate HasSpecial(p: string) { exists i :: 0 <= i < |p| && IsSpecial(p[i]) }

  /** `isPasswordStrong(_:)`. */
  predicate IsPasswordStrong(p: string)
  {
    |p| >= 8 && HasUppercase(p) && HasLowercase(p) && HasNumber(p) && HasSpecial(p)
  }

  /** The five rules, in the order `validatePassword` checks them. */
  datatype Rule = MinLength | Uppercase | Lowercase | Number | Special

  const Rules: seq<Rule> := [MinLength, Uppercase, Lowercase, Number, Special]

  predicate Satisfies(p: string, r: Rule)
  {
    match r
    case MinLength => |p| >= 8
    case Uppercase => HasUppercase(p)
    case Lowercase => HasLowercase(p)
    case Number => HasNumber(p)
    case Special => HasSpecial(p)
  }

  function RuleMessage(r: Rule): string
  {
    match r
    case MinLength => "\U{274C} Password must be at least 8 characters."
    case Uppercase => "\U{274C} Password must contain at least one uppercase letter."
    case Lowercase => "\U{274C} Password must contain at least one lowercase letter."
    case Number => "\U{274C} Password must contain at least one number."
    case Special => "\U{274C} Password must contain at least one special character."
  }

  const StrongMessage: string := "\U{2705} Password is strong!"

  /** `validatePassword(_:)`: the message of the first rule that fails, or
      the "strong" message. */
  function ValidatePassword(p: string): string
  {
    if |p| < 8 then RuleMessage(MinLength)
    else if !HasUppercase(p) then RuleMessage(Uppercase)
    else if !HasLowercase(p) then RuleMessage(Lowercase)
    else if !HasNumber(p) then RuleMessage(Number)
    else if !HasSpecial(p) then RuleMessage(Special)
    else StrongMessage
  }

  /** The six messages are pairwise different. */
  lemma MessagesDistinct()
    ensures forall k :: 0 <= k < |Rules| ==> RuleMessage(Rules[k]) != StrongMessage
    ensures forall j, k :: 0 <= j < k < |Rules| ==> RuleMessage(Rules[j]) != RuleMessage(Rules[k])
  {
    assert RuleMessage(Uppercase)[37] != RuleMessage(Lowercase)[37];
  }

  /** Strength is exactly "every rule holds". */
  lemma StrongIffAllRules(p: string)
    ensures IsPasswordStrong(p) <==> forall k :: 0 <= k < |Rules| ==> Satisfies(p, Rules[k])
  {
    if forall k :: 0 <= k < |Rules| ==> Satisfies(p, Rules[k]) {
      assert Satisfies(p, Rules[0]) && Satisfies(p, Rules[1]) && Satisfies(p, Rules[2]);
      assert Satisfies(p, Rules[3]) && Satisfies(p, Rules[4]);
    }
  }

  /** The validator says "strong" exactly for strong passwords. */
  lemma ValidateAgreesWithStrength(p: string)
    ensures ValidatePassword(p) == StrongMessage <==> IsPasswordStrong(p)
  {
    MessagesDistinct();
    assert RuleMessage(MinLength) == RuleMessage(Rules[0]);
    assert RuleMessage(Uppercase) == RuleMessage(Rules[1]);
    assert RuleMessage(Lowercase) == RuleMessage(Rules[2]);
    assert RuleMessage(Number) == RuleMessage(Rules[3]);
    assert RuleMessage(Special) == RuleMessage(Rules[4]);
  }

  /** The position in `Rules` of the first rule `p` fails, or `|Rules|`
      when it passes them all. */
  function FirstFailure(p: string): (i: nat)
    ensures i <= |Rules|
    ensures forall j :: 0 <= j < i ==> Satisfies(p, Rules[j])
    ensures i < |Rules| ==> !Satisfies(p, Rules[i])
    ensures ValidatePassword(p) == if i < |Rules| then RuleMessage(Rules[i]) else StrongMessage
  {
    if |p| < 8 then 0 else if !HasUppercase(p) then 1 else if !HasLowercase(p) then 2
    else if !HasNumber(p) then 3 else if !HasSpecial(p) then 4 else 5
  }

  /** The validator reports rule `k` exactly when rule `k` fails and every
      rule before it holds. */
  lemma ValidateReportsFirstFailure(p: string, k: nat)
    requires k < |Rules|
    ensures ValidatePassword(p) == RuleMessage(Rules[k]) <==>
              !Satisfies(p, Rules[k]) && forall j :: 0 <= j < k ==> Satisfies(p, Rules[j])
  {
    MessagesDistinct();
    var i := FirstFailure(p);
    if ValidatePassword(p) == RuleMessage(Rules[k]) {
      assert i == k;
    }
    if !Satisfies(p, Rules[k]) && forall j :: 0 <= j < k ==> Satisfies(p, Rules[j]) {
      assert i == k;
    }
  }

  datatype Color = Red | Yellow | Green

  /** `passwordStrengthColor`. */
  function PasswordStrengthColor(p: string): Color
  {
    if |p| < 8 then Red
    else if HasUppercase(p) && HasNumber(p) && HasSpecial(p) then Green
    else Yellow
  }

  /** The bar is red exactly for short passwords; every strong password
      shows green. */
  lemma ColorFacts(p: string)
    ensures PasswordStrengthColor(p) == Red <==> |p| < 8
    ensures IsPasswordStrong(p) ==> PasswordStrengthColor(p) == Green
  {
  }

  /** Green does not need a lowercase letter, so a green bar does not mean
      the password will be accepted. */
  lemma GreenIsNotStrong()
    ensures PasswordStrengthColor("ABCDEF1!") == Green
    ensures !IsPasswordStrong("ABCDEF1!")
  {
    var p := "ABCDEF1!";
    assert IsUppercase(p[0]) && IsNumber(p[6]) && IsSpecial(p[7]);
    assert forall i :: 0 <= i < |p| ==> !IsLowercase(p[i]);
  }

  /** `hashPassword(_:)` (both copies): the hex rendering of the SHA-256 of
      the password's UTF-8 bytes. */
  function HashPassword(sha: Bytes -> Digest, password: string): (h: string)
    ensures |h| == 64
    ensures forall i :: 0 <= i < |h| ==> IsHexChar(h[i])
    ensures HexDecode(h) == Option<Bytes>.Some(sha(Utf8(password)))
  {
    HexRoundTrip(sha(Utf8(password)));
    HexEncode(sha(Utf8(password)))
  }

  /** What `saveUserData` writes. */
  datatype UserRecord = UserRecord(username: string, email: string, phoneNumber: string, password: string)

  /** The outcome of the "Save & Continue" action: an alert, or the record
      that is saved before the screen is dismissed. */
  datatype RegistrationOutcome = Alert(message: string) | Saved(record: UserRecord)

  const EmptyFieldsMessage: string := "Ensure all fields are filled."
  const WeakPasswordMessage: string := "Password is too weak."
  const MismatchMessage: string := "Passwords do not match."

  /** The "Save & Continue" button action. */
  function SaveAndContinue(username: string, email: string, phoneNumber: string,
                           password: string, confirmPassword: string,
                           sha: Bytes -> Digest): RegistrationOutcome
  {
    if username == [] || email == [] || password == [] || confirmPassword == [] then
      Alert(EmptyFieldsMessage)
    else if !IsPasswordStrong(password) then Alert(WeakPasswordMessage)
    else if password != confirmPassword then Alert(MismatchMessage)
    else Saved(UserRecord(username, email, phoneNumber, HashPassword(sha, password)))
  }

  /** A record is saved exactly when the four required fields are filled, the
      password is strong and confirmed; the alerts come in the order empty
      fields, weakness, mismatch. */
  lemma SaveAndContinueDecision(username: string, email: string, phoneNumber: string,
                                password: string, confirmPassword: string, sha: Bytes -> Digest)
    ensures var out := SaveAndContinue(username, email, phoneNumber, password, confirmPassword, sha);
      var filled := username != [] && email != [] && password != [] && confirmPassword != [];
      && (out.Saved? <==> filled && IsPasswordStrong(password) && password == confirmPassword)
      && (!filled ==> out == Alert(EmptyFieldsMessage))
      && (filled && !IsPasswordStrong(password) ==> out == Alert(WeakPasswordMessage))
      && (filled && IsPasswordStrong(password) && password != confirmPassword ==> out == Alert(MismatchMessage))
  {
  }

  /** A saved record holds the digest of the password and never the
      password itself: a strong password has an uppercase letter, a digest
      rendering has none. */
  lemma SavedRecordHoldsDigest(username: string, email: string, phoneNumber: string,
                               password: string, confirmPassword: string, sha: Bytes -> Digest)
    requires SaveAndContinue(username, email, phoneNumber, password, confirmPassword, sha).Saved?
    ensures var rec := SaveAndContinue(username, email, phoneNumber, password, confirmPassword, sha).record;
      && rec == UserRecord(username, email, phoneNumber, HashPassword(sha, password))
      && rec.password != password
  {
    var h := HashPassword(sha, password);
    var i :| 0 <= i < |password| && IsUppercase(password[i]);
    if |h| == |password| {
      assert IsHexChar(h[i]) && !IsHexChar(password[i]);
    }
  }

  const UsernameKey: string := "username"
  const EmailKey: string := "email"
  const PhoneNumberKey: string := "phoneNumber"
  const PasswordKey: string := "password"

  lemma KeysDistinct()
    ensures UsernameKey != PasswordKey && UsernameKey != EmailKey && UsernameKey != PhoneNumberKey
    ensures PasswordKey != EmailKey && PasswordKey != PhoneNumberKey
    ensures EmailKey != PhoneNumberKey
  {
    assert UsernameKey[0] != PasswordKey[0];
    assert EmailKey[0] != PhoneNumberKey[0];
  }

  /** `saveUserData(...)`: four UserDefaults writes. */
  function WriteUserData(values: map<string, Value>, rec: UserRecord): (r: map<string, Value>)
    ensures StoredString(r, UsernameKey) == rec.username && StoredString(r, EmailKey) == rec.email
    ensures StoredString(r, PhoneNumberKey) == rec.phoneNumber && StoredString(r, PasswordKey) == rec.password
    ensures r.Keys == values.Keys + {UsernameKey, EmailKey, PhoneNumberKey, PasswordKey}
    ensures forall k :: k in values && k !in {UsernameKey, EmailKey, PhoneNumberKey, PasswordKey} ==> r[k] == values[k]
  {
    KeysDistinct();
    values[UsernameKey := Str(rec.username)][EmailKey := Str(rec.email)]
          [PhoneNumberKey := Str(rec.phoneNumber)][PasswordKey := Str(rec.password)]
  }

  /** `UserDefaults.standard.string(forKey:) ?? ""` over the values the app
      stores: the stored text, or "" for anything else. Foundation's reading of
      a stored number as text is not modelled. */
  function StoredString(values: map<string, Value>, key: string): (s: string)
    ensures key in values && values[key].Str? ==> s == values[key].text
    ensures !(key in values && values[key].Str?) ==> s == ""
  {
    if key in values && values[key].Str? then values[key].text else ""
  }

  /** The two flags of the login screen that `handleLogin` sets. */
  datatype LoginScreen = LoginScreen(showAlert: bool, navigateToContentView: bool)

  /** `handleLogin()`: navigate when the user name matches the stored one and
      the digest of the typed password matches the stored digest; otherwise
      raise the alert. */
  function HandleLogin(screen: LoginScreen, username: string, password: string,
                       values: map<string, Value>, sha: Bytes -> Digest): LoginScreen
  {
    var storedUsername := StoredString(values, UsernameKey);
    var storedPassword := StoredString(values, PasswordKey);
    if username == storedUsername && HashPassword(sha, password) == storedPassword
    then screen.(navigateToContentView := true)
    else screen.(showAlert := true)
  }

  /** Whoever registered with a user name and password can then log in with
      them, and no alert is raised. */
  lemma RegisteredUserCanLogIn(screen: LoginScreen, values: map<string, Value>,
                               username: string, email: string, phoneNumber: string,
                               password: string, sha: Bytes -> Digest)
    requires SaveAndContinue(username, email, phoneNumber, password, password, sha).Saved?
    ensures var stored := WriteUserData(values, SaveAndContinue(username, email, phoneNumber, password, password, sha).record);
      HandleLogin(screen, username, password, stored, sha) == screen.(navigateToContentView := true)
  {
    var stored := WriteUserData(values, SaveAndContinue(username, email, phoneNumber, password, password, sha).record);
    KeysDistinct();
    assert StoredString(stored, UsernameKey) == username;
    assert StoredString(stored, PasswordKey) == HashPassword(sha, password);
  }

  /** Against a registered user, a password whose digest differs from the
      stored one (or another user name) raises the alert and does not
      navigate. */
  lemma WrongCredentialsRejected(screen: LoginScreen, rec: UserRecord, values: map<string, Value>,
                                 username: string, password: string, sha: Bytes -> Digest)
    requires username != rec.username || HashPassword(sha, password) != rec.password
    ensures HandleLogin(screen, username, password, WriteUserData(values, rec), sha)
              == screen.(showAlert := true)
  {
    var stored := WriteUserData(values, rec);
    KeysDistinct();
    assert StoredString(stored, UsernameKey) == rec.username;
    assert StoredString(stored, PasswordKey) == rec.password;
  }

  /** Against a user registered with password `registered`, any other
      password is rejected, as long as SHA-256 does not collide on the two
      passwords' UTF-8 bytes: different passwords always hash different
      bytes. */
  lemma WrongPasswordRejected(screen: LoginScreen, rec: UserRecord, values: map<string, Value>,
                              registered: string, password: string, sha: Bytes -> Digest)
    requires rec.password == HashPassword(sha, registered)
    requires password != registered
    requires Utf8(password) != Utf8(registered) ==> sha(Utf8(password)) != sha(Utf8(registered))
    ensures HandleLogin(screen, rec.username, password, WriteUserData(values, rec), sha)
              == screen.(showAlert := true)
  {
    if Utf8(password) == Utf8(registered) {
      Utf8Injective(password, registered);
    }
    if HashPassword(sha, password) == HashPassword(sha, registered) {
      HexEncodeInjective(sha(Utf8(password)), sha(Utf8(registered)));
    }
    WrongCredentialsRejected(screen, rec, values, rec.username, password, sha);
  }

  /** With no stored password the stored digest reads as "", which no digest
      equals: nobody can log in before registering. */
  lemma NoStoredPasswordRejectsAll(screen: LoginScreen, username: string, password: string,
                                   values: map<string, Value>, sha: Bytes -> Digest)
    requires PasswordKey !in values
    ensures HandleLogin(screen, username, password, values, sha) == screen.(showAlert := true)
  {
    assert |HashPassword(sha, password)| == 64;
  }
}
