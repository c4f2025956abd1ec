/**
 * Signing in and signing up.
 *
 * `Judge` and `LockAfter` are the decision procedure of the login form and
 * its effect on the user's lockout state; `Login` performs one request on
 * the database and is proved to follow them. `RegistrationErrors` is the
 * validation of the sign-up form and `Register` inserts a user exactly
 * when it reports nothing.
 *
 * Password checking and hashing are parameters: `check(hash, password)`
 * stands for the salted-hash comparison and `hash(password)` for the key
 * derivation. `clean` stands for the markup cleaner inside input
 * sanitisation.
 */
module Auth {
  import opened Wrappers
  import opened Models
  import opened Text
  import Security

  // ---------------------------------------------------------------------
  // Looking users up
  // ---------------------------------------------------------------------

  /** The position of the user called `name` (`filter_by(username=...)
      .first()`). */
  function FindUser(users: seq<User>, name: string): (r: Option<nat>)
    ensures r.Some? ==> r.value < |users| && users[r.value].username == name
                        && forall j :: 0 <= j < r.value ==> users[j].username != name
    ensures r.None? ==> forall j :: 0 <= j < |users| ==> users[j].username != name
  {
    if users == [] then None
    else if users[0].username == name then Some(0)
    else
      var r := FindUser(users[1..], name);
      assert forall j :: 1 <= j < |users| ==> users[j] == users[1..][j - 1];
      match r
      case None => None
      case Some(k) => Some(k + 1)
  }

  /** Whether some user has the e-mail address `email`. */
  predicate EmailInUse(users: seq<User>, email: string)
  {
    exists j :: 0 <= j < |users| && users[j].email == email
  }

  /** A form field after `sanitize_input`; a missing field reads as ''. */
  function Sanitized(raw: string, clean: string -> string): string
  {
    Security.SanitizeInput(Some(raw), clean).value
  }

  // ---------------------------------------------------------------------
  // login
  // ---------------------------------------------------------------------

  /** What the login decision reads from the user row. */
  datatype UserView = UserView(active: bool, lock: LockState, passwordHash: string)

  function ViewOf(u: User): UserView
    reads u
  {
    UserView(u.isActive, u.Lock(), u.passwordHash)
  }

  /** The verdicts of the login form. The source shows the same message for
      an unknown or inactive user and for a wrong password. */
  datatype LoginVerdict = MissingCredentials | UnknownOrInactive | AccountLocked | WrongPassword | Authenticated

  /** The login decision for the sanitised username, the password and the
      user row found under that username (if any). */
  function Judge(username: string, password: string, found: Option<UserView>,
                 check: (string, string) -> bool, now: Time): LoginVerdict
  {
    if username == [] || password == [] then MissingCredentials
    else if found.None? || !found.value.active then UnknownOrInactive
    else if IsLocked(found.value.lock, now) then AccountLocked
    else if check(found.value.passwordHash, password) then Authenticated
    else WrongPassword
  }

  /** The found user's lockout state after the request: cleared on success,
      one more failure on a wrong password, untouched otherwise. */
  function LockAfter(v: LoginVerdict, s: LockState, now: Time): LockState
  {
    match v
    case Authenticated => Cleared
    case WrongPassword => AfterFailure(s, now)
    case _ => s
  }

  /** The row logged for a request that got past the credentials check. */
  function AttemptFor(v: LoginVerdict, username: string, meta: RequestMeta, now: Time): LoginAttempt
  {
    LoginAttempt(Security.GetClientIp(meta.forwardedFor, meta.remoteAddr), username,
                 v == Authenticated, now, meta.userAgent)
  }

  /** The `next` target followed after a successful login: any non-empty
      value starting with '/'; None means the dashboard. */
  function NextRedirect(next: Option<string>): Option<string>
  {
    if next.Some? && next.value != [] && next.value[0] == '/' then next else None
  }

  /** A login succeeds exactly when both fields are filled in, the user
      exists, is active and not locked, and the password matches. */
  lemma AuthenticatedIff(username: string, password: string, found: Option<UserView>,
                         check: (string, string) -> bool, now: Time)
    ensures Judge(username, password, found, check, now) == Authenticated <==>
              username != [] && password != [] && found.Some? && found.value.active
              && !IsLocked(found.value.lock, now) && check(found.value.passwordHash, password)
    ensures Judge(username, password, found, check, now) == MissingCredentials <==>
              username == [] || password == []
  {
  }

  /** A locked, active user is turned away whatever the password, and the
      failure counter and lock stay as they were. */
  lemma LockedRejectsEvenTheRightPassword(username: string, password: string, u: UserView,
                                          check: (string, string) -> bool, now: Time)
    requires username != [] && password != [] && u.active && IsLocked(u.lock, now)
    ensures Judge(username, password, Some(u), check, now) == AccountLocked
    ensures LockAfter(AccountLocked, u.lock, now) == u.lock
  {
  }

  /** An unknown or inactive username changes no lockout state. */
  lemma UnknownOrInactiveChangesNothing(username: string, password: string, found: Option<UserView>,
                                        check: (string, string) -> bool, now: Time)
    requires username != [] && password != []
    requires found.None? || !found.value.active
    ensures Judge(username, password, found, check, now) == UnknownOrInactive
    ensures forall s :: LockAfter(UnknownOrInactive, s, now) == s
  {
  }

  /** The logged row is a success exactly on the password-match path. */
  lemma AttemptRecordsSuccess(v: LoginVerdict, username: string, meta: RequestMeta, now: Time)
    ensures AttemptFor(v, username, meta, now).success <==> v == Authenticated
    ensures AttemptFor(v, username, meta, now).username == username
    ensures AttemptFor(v, username, meta, now).attemptedAt == now
  {
  }

  /** The user's state after one request with `password` at `now`. */
  function AfterLogin(u: UserView, username: string, password: string,
                      check: (string, string) -> bool, now: Time): UserView
  {
    u.(lock := LockAfter(Judge(username, password, Some(u), check, now), u.lock, now))
  }

  /** Three wrong passwords lock an active user out: within 30 minutes of
      the third even the right password is refused, and from then on it is
      accepted and clears the counter. */
  lemma ThreeWrongPasswordsLockOut(username: string, hash: string, right: string, wrong: string,
                                   check: (string, string) -> bool, t1: Time, t2: Time, t3: Time, t4: Time)
    requires username != [] && right != [] && wrong != []
    requires check(hash, right) && !check(hash, wrong)
    requires t1 <= t2 <= t3 <= t4
    ensures var u0 := UserView(true, Cleared, hash);
            var u1 := AfterLogin(u0, username, wrong, check, t1);
            var u2 := AfterLogin(u1, username, wrong, check, t2);
            var u3 := AfterLogin(u2, username, wrong, check, t3);
            && Judge(username, wrong, Some(u0), check, t1) == WrongPassword
            && Judge(username, wrong, Some(u1), check, t2) == WrongPassword
            && Judge(username, wrong, Some(u2), check, t3) == WrongPassword
            && u3.lock == LockState(3, Some(t3 + LockDuration))
            && (t4 < t3 + LockDuration ==> Judge(username, right, Some(u3), check, t4) == AccountLocked)
            && (t4 >= t3 + LockDuration ==>
                  Judge(username, right, Some(u3), check, t4) == Authenticated
                  && AfterLogin(u3, username, right, check, t4).lock == Cleared)
  {
  }

  /** The `next` check is a prefix test only: a protocol-relative
      '//host' target, which leads off the site, is followed too. */
  lemma NextRedirectIsPrefixCheck(next: Option<string>)
    ensures NextRedirect(next).Some? <==> next.Some? && StartsWith(next.value, "/")
    ensures NextRedirect(next).Some? ==> NextRedirect(next) == next
    ensures NextRedirect(Some("//evil.example")) == Some("//evil.example")
    ensures NextRedirect(Some("https://evil.example")) == None
  {
  }

  /** The users a login request may change: the one found under the name. */
  function LoginTarget(users: seq<User>, username: string): set<User>
  {
    var k := FindUser(users, username);
    if k.Some? then {users[k.value]} else {}
  }

  /** The part of `login` that works on the user found: refuse while
      locked, otherwise check the password and unlock or count a failure. */
  method Answer(u: User, username: string, password: string, check: (string, string) -> bool, now: Time)
    returns (v: LoginVerdict)
    requires username != [] && password != [] && u.isActive
    modifies u
    ensures v == Judge(username, password, Some(old(ViewOf(u))), check, now)
    ensures u.Lock() == LockAfter(v, old(u.Lock()), now)
    ensures u.lastLogin == (if v == Authenticated then Some(now) else old(u.lastLogin))
    ensures u.passwordHash == old(u.passwordHash) && u.isActive == old(u.isActive)
  {
    if u.IsAccountLocked(now) {
      return AccountLocked;
    }
    if check(u.passwordHash, password) {
      u.UnlockAccount();
      u.UpdateLastLogin(now);
      return Authenticated;
    }
    u.LockAccount(now);
    return WrongPassword;
  }

  /** Add a row to the login-attempts table. */
  method LogAttempt(db: Database, a: LoginAttempt)
    requires db.Valid()
    modifies db
    ensures db.Valid()
    ensures db.attempts == old(db.attempts) + [a]
    ensures db.users == old(db.users) && db.accounts == old(db.accounts) && db.ledger == old(db.ledger)
  {
    db.attempts := db.attempts + [a];
  }

  /** The verdict on filled-in credentials, with its effect on the user
      found under the name; the tables themselves do not change. */
  method Decide(db: Database, username: string, password: string, check: (string, string) -> bool, now: Time)
    returns (v: LoginVerdict)
    requires username != [] && password != []
    modifies LoginTarget(db.users, username)
    ensures var k := FindUser(db.users, username);
            && v == Judge(username, password, if k.Some? then Some(old(ViewOf(db.users[k.value]))) else None,
                          check, now)
            && (k.Some? ==>
                  var u := db.users[k.value];
                  && u.Lock() == LockAfter(v, old(u.Lock()), now)
                  && u.lastLogin == (if v == Authenticated then Some(now) else old(u.lastLogin))
                  && u.passwordHash == old(u.passwordHash) && u.isActive == old(u.isActive))
  {
    var k := FindUser(db.users, username);
    if k.Some? && db.users[k.value].isActive {
      v := Answer(db.users[k.value], username, password, check, now);
    } else {
      v := UnknownOrInactive;
    }
  }

  /** `login` on the database: decide, update the found user's lockout
      state, and log the attempt. */
  method Login(db: Database, usernameRaw: string, password: string, clean: string -> string,
               check: (string, string) -> bool, meta: RequestMeta, next: Option<string>, now: Time)
    returns (v: LoginVerdict, follow: Option<string>)
    requires db.Valid()
    modifies db, LoginTarget(db.users, Sanitized(usernameRaw, clean))
    ensures db.Valid()
    ensures db.users == old(db.users) && db.accounts == old(db.accounts) && db.ledger == old(db.ledger)
    ensures var name := Sanitized(usernameRaw, clean);
            var k := FindUser(db.users, name);
            && v == Judge(name, password, if k.Some? then Some(old(ViewOf(db.users[k.value]))) else None,
                          check, now)
            && db.attempts == old(db.attempts) + (if v == MissingCredentials then [] else [AttemptFor(v, name, meta, now)])
            && (k.Some? ==>
                  var u := db.users[k.value];
                  && u.Lock() == LockAfter(v, old(u.Lock()), now)
                  && u.lastLogin == (if v == Authenticated then Some(now) else old(u.lastLogin))
                  && u.passwordHash == old(u.passwordHash) && u.isActive == old(u.isActive))
    ensures follow == (if v == Authenticated then NextRedirect(next) else None)
  {
    var username := Sanitized(usernameRaw, clean);
    if username == [] || password == [] {
      return MissingCredentials, None;
    }
    v := Decide(db, username, password, check, now);
    var ip := Security.GetClientIp(meta.forwardedFor, meta.remoteAddr);
    LogAttempt(db, LoginAttempt(ip, username, v == Authenticated, now, meta.userAgent));
    follow := if v == Authenticated then NextRedirect(next) else None;
  }

  // ---------------------------------------------------------------------
  // register
  // ---------------------------------------------------------------------

  /** The pattern `^[a-zA-Z0-9_]+$`: one or more word characters, with the
      final newline `$` tolerates. */
  ghost predicate UsernamePattern(s: string)
  {
    exists body :: EndAnchored(s, body) && body != [] && AllWordChars(body)
  }

  /** A direct test for `UsernamePattern`. */
  function MatchesUsernamePattern(s: string): (ok: bool)
    ensures ok <==> UsernamePattern(s)
  {
    if s == [] then false
    else
      var body := if s[|s| - 1] == '\n' then s[..|s| - 1] else s;
      assert EndAnchored(s, body);
      assert UsernamePattern(s) ==> body != [] && AllWordChars(body) by {
        if UsernamePattern(s) {
          var b :| EndAnchored(s, b) && b != [] && AllWordChars(b);
          if s == b {
            assert IsWordChar(s[|s| - 1]);
          } else {
            assert s[..|s| - 1] == b;
          }
        }
      }
      body != [] && AllWordChars(body)
  }

  /** The pattern `^[^@]+@[^@]+\.[^@]+$`: three non-empty runs without '@',
      the first two joined by '@' and the last two by a dot. (`[^@]` also
      matches a newline, so the final newline `$` tolerates adds nothing.) */
  predicate EmailPattern(s: string)
  {
    exists k, j :: 0 < k && k + 1 < j < |s| - 1 && s[k] == '@' && s[j] == '.'
                   && !Contains(s[..k], '@') && !Contains(s[k + 1..], '@')
  }

  /** Every address of the form `local@domain.suffix` with three non-empty
      parts free of '@' matches. */
  lemma EmailPatternIsParts(local: string, domain: string, suffix: string)
    requires local != [] && domain != [] && suffix != []
    requires !Contains(local, '@') && !Contains(domain, '@') && !Contains(suffix, '@')
    ensures EmailPattern(local + "@" + domain + "." + suffix)
  {
    var s := local + "@" + domain + "." + suffix;
    var k, j := |local|, |local| + 1 + |domain|;
    assert s[..k] == local;
    assert s[k + 1..] == domain + "." + suffix;
    assert s[k] == '@' && s[j] == '.';
  }

  /** A matching address holds exactly one '@', neither first nor last,
      and a dot strictly between the character after it and the end. */
  lemma EmailPatternHasOneAt(s: string, i: int, i': int)
    requires EmailPattern(s)
    requires 0 <= i < i' < |s|
    ensures !(s[i] == '@' && s[i'] == '@')
    ensures s[0] != '@' && s[|s| - 1] != '@'
  {
    var k, j :| 0 < k && k + 1 < j < |s| - 1 && s[k] == '@' && s[j] == '.'
                && !Contains(s[..k], '@') && !Contains(s[k + 1..], '@');
    assert s[0] == s[..k][0];
    assert s[|s| - 1] == s[k + 1..][|s| - k - 2];
    if i < k {
      assert s[i] == s[..k][i];
    } else if i > k {
      assert s[i] == s[k + 1..][i - k - 1];
    }
    if i' > k {
      assert s[i'] == s[k + 1..][i' - k - 1];
    }
  }

  /** The messages `register` can collect. */
  datatype RegistrationError =
    | UsernameTooShort
    | UsernameCharacters
    | InvalidEmail
    | FullNameRequired
    | PasswordMismatch
    | WeakPassword(verdict: Security.PasswordCheck)
    | UsernameTaken
    | EmailTaken

  /** The sanitised sign-up form. */
  datatype SignUp = SignUp(username: string, email: string, fullName: string, phone: string,
                           password: string, confirmPassword: string)

  /** The number of checks `register` runs. */
  const CheckCount: nat := 8

  /** Whether check `i` of the sign-up form fails; the checks are numbered
      in the order `register` runs them. */
  predicate Fails(users: seq<User>, f: SignUp, i: nat)
  {
    match i
    case 0 => |f.username| < 3
    case 1 => !MatchesUsernamePattern(f.username)
    case 2 => !EmailPattern(f.email)
    case 3 => |f.fullName| < 2
    case 4 => f.password != f.confirmPassword
    case 5 => Security.ValidatePasswordStrength(f.password) != Security.Strong
    case 6 => FindUser(users, f.username).Some?
    case _ => EmailInUse(users, f.email)
  }

  /** The message check `i` adds when it fails. */
  function Message(f: SignUp, i: nat): RegistrationError
  {
    match i
    case 0 => UsernameTooShort
    case 1 => UsernameCharacters
    case 2 => InvalidEmail
    case 3 => FullNameRequired
    case 4 => PasswordMismatch
    case 5 => WeakPassword(Security.ValidatePasswordStrength(f.password))
    case 6 => UsernameTaken
    case _ => EmailTaken
  }

  /** The errors collected after the first `k` checks. */
  function ErrorsAfter(users: seq<User>, f: SignUp, k: nat): seq<RegistrationError>
  {
    if k == 0 then []
    else ErrorsAfter(users, f, k - 1) + (if Fails(users, f, k - 1) then [Message(f, k - 1)] else [])
  }

  /** Every error of the sign-up form, in the order the source collects
      them. */
  function RegistrationErrors(users: seq<User>, f: SignUp): seq<RegistrationError>
  {
    ErrorsAfter(users, f, CheckCount)
  }

  /** A message is collected exactly when a check carrying it has failed,
      and nothing is collected exactly when every check so far passed. */
  lemma {:induction false} ErrorsAfterCollects(users: seq<User>, f: SignUp, k: nat, e: RegistrationError)
    ensures e in ErrorsAfter(users, f, k) <==> exists i :: 0 <= i < k && Fails(users, f, i) && Message(f, i) == e
    ensures ErrorsAfter(users, f, k) == [] <==> forall i :: 0 <= i < k ==> !Fails(users, f, i)
  {
    if k > 0 {
      ErrorsAfterCollects(users, f, k - 1, e);
    }
  }

  /** A message only check `i` carries is reported exactly when that check
      fails. */
  lemma ReportedIff(users: seq<User>, f: SignUp, i: nat, e: RegistrationError)
    requires i < CheckCount && Message(f, i) == e
    requires forall j :: 0 <= j < CheckCount && j != i ==> Message(f, j) != e
    ensures e in RegistrationErrors(users, f) <==> Fails(users, f, i)
  {
    ErrorsAfterCollects(users, f, CheckCount, e);
  }

  /** The form is accepted exactly when every check passes. */
  lemma RegistrationAcceptedIff(users: seq<User>, f: SignUp)
    ensures RegistrationErrors(users, f) == [] <==>
              && |f.username| >= 3 && UsernamePattern(f.username)
              && EmailPattern(f.email)
              && |f.fullName| >= 2
              && f.password == f.confirmPassword
              && |f.password| >= 8 && Security.HasUpper(f.password) && Security.HasLower(f.password)
              && Security.HasDigit(f.password) && Security.HasSpecial(f.password)
              && (forall j :: 0 <= j < |users| ==> users[j].username != f.username)
              && (forall j :: 0 <= j < |users| ==> users[j].email != f.email)
  {
    ErrorsAfterCollects(users, f, CheckCount, UsernameTooShort);
    assert (forall i :: 0 <= i < CheckCount ==> !Fails(users, f, i)) <==>
             && !Fails(users, f, 0) && !Fails(users, f, 1) && !Fails(users, f, 2) && !Fails(users, f, 3)
             && !Fails(users, f, 4) && !Fails(users, f, 5) && !Fails(users, f, 6) && !Fails(users, f, 7);
  }

  /** Each message is reported exactly when its check fails. */
  lemma RegistrationErrorsIff(users: seq<User>, f: SignUp)
    ensures UsernameTooShort in RegistrationErrors(users, f) <==> |f.username| < 3
    ensures UsernameCharacters in RegistrationErrors(users, f) <==> !UsernamePattern(f.username)
    ensures InvalidEmail in RegistrationErrors(users, f) <==> !EmailPattern(f.email)
    ensures FullNameRequired in RegistrationErrors(users, f) <==> |f.fullName| < 2
    ensures PasswordMismatch in RegistrationErrors(users, f) <==> f.password != f.confirmPassword
    ensures UsernameTaken in RegistrationErrors(users, f) <==>
              exists j :: 0 <= j < |users| && users[j].username == f.username
    ensures EmailTaken in RegistrationErrors(users, f) <==> EmailInUse(users, f.email)
  {
    ReportedIff(users, f, 0, UsernameTooShort);
    ReportedIff(users, f, 1, UsernameCharacters);
    ReportedIff(users, f, 2, InvalidEmail);
    ReportedIff(users, f, 3, FullNameRequired);
    ReportedIff(users, f, 4, PasswordMismatch);
    ReportedIff(users, f, 6, UsernameTaken);
    ReportedIff(users, f, 7, EmailTaken);
  }

  /** A weak password is reported with the verdict of the first password
      requirement it misses, and only then. */
  lemma WeakPasswordIsReported(users: seq<User>, f: SignUp, v: Security.PasswordCheck)
    ensures WeakPassword(v) in RegistrationErrors(users, f) <==>
              v != Security.Strong && v == Security.ValidatePasswordStrength(f.password)
  {
    ErrorsAfterCollects(users, f, CheckCount, WeakPassword(v));
    if v != Security.Strong && v == Security.ValidatePasswordStrength(f.password) {
      assert Fails(users, f, 5) && Message(f, 5) == WeakPassword(v);
    }
  }

  /** An empty username is reported both as too short and as having the
      wrong characters, ahead of every other message. */
  lemma EmptyUsernameFailsTwice(users: seq<User>, f: SignUp)
    requires f.username == []
    ensures |RegistrationErrors(users, f)| >= 2
    ensures RegistrationErrors(users, f)[..2] == [UsernameTooShort, UsernameCharacters]
  {
    ErrorsAfterPrefix(users, f, 2, CheckCount);
    assert ErrorsAfter(users, f, 1) == [UsernameTooShort];
    assert Fails(users, f, 1);
    assert ErrorsAfter(users, f, 2) == [UsernameTooShort, UsernameCharacters];
  }

  /** Later checks only append: the errors after `k` checks begin with the
      errors after `j <= k` checks. */
  lemma {:induction false} ErrorsAfterPrefix(users: seq<User>, f: SignUp, j: nat, k: nat)
    requires j <= k
    ensures |ErrorsAfter(users, f, j)| <= |ErrorsAfter(users, f, k)|
    ensures ErrorsAfter(users, f, k)[..|ErrorsAfter(users, f, j)|] == ErrorsAfter(users, f, j)
  {
    if j < k {
      ErrorsAfterPrefix(users, f, j, k - 1);
    }
  }

  /** The sign-up form as `register` reads it: every field but the two
      passwords goes through `sanitize_input`. */
  function SanitizedSignUp(username: string, email: string, fullName: string, phone: string,
                           password: string, confirmPassword: string, clean: string -> string): (f: SignUp)
    ensures f.password == password && f.confirmPassword == confirmPassword
    ensures username == [] ==> f.username == []
    ensures f.username != [] ==> !IsSpace(f.username[0]) && !IsSpace(f.username[|f.username| - 1])
  {
    SignUp(Sanitized(username, clean), Sanitized(email, clean), Sanitized(fullName, clean),
           Sanitized(phone, clean), password, confirmPassword)
  }

  /** The validation half of `register`: run the checks in order and
      collect the message of each that fails. */
  method CollectErrors(users: seq<User>, f: SignUp) returns (errors: seq<RegistrationError>)
    ensures errors == RegistrationErrors(users, f)
  {
    errors := [];
    if |f.username| < 3 {
      errors := errors + [UsernameTooShort];
    }
    assert errors == ErrorsAfter(users, f, 1);
    if !MatchesUsernamePattern(f.username) {
      errors := errors + [UsernameCharacters];
    }
    assert errors == ErrorsAfter(users, f, 2);
    if !EmailPattern(f.email) {
      errors := errors + [InvalidEmail];
    }
    assert errors == ErrorsAfter(users, f, 3);
    if |f.fullName| < 2 {
      errors := errors + [FullNameRequired];
    }
    assert errors == ErrorsAfter(users, f, 4);
    if f.password != f.confirmPassword {
      errors := errors + [PasswordMismatch];
    }
    assert errors == ErrorsAfter(users, f, 5);
    var verdict := Security.ValidatePasswordStrength(f.password);
    if verdict != Security.Strong {
      errors := errors + [WeakPassword(verdict)];
    }
    assert errors == ErrorsAfter(users, f, 6);
    if FindUser(users, f.username).Some? {
      errors := errors + [UsernameTaken];
    }
    assert errors == ErrorsAfter(users, f, 7);
    if EmailInUse(users, f.email) {
      errors := errors + [EmailTaken];
    }
  }

  /** A user whose username and e-mail address are both unused keeps the
      logins unique. */
  lemma UniqueLoginsAppend(users: seq<User>, u: User)
    requires UniqueLogins(users)
    requires forall j :: 0 <= j < |users| ==> users[j].username != u.username
    requires forall j :: 0 <= j < |users| ==> users[j].email != u.email
    ensures UniqueLogins(users + [u])
  {
    var all := users + [u];
    forall i, j | 0 <= i < |all| && 0 <= j < |all| && i != j
      ensures all[i].username != all[j].username && all[i].email != all[j].email
    {
      if i < |users| && j < |users| {
        assert all[i] == users[i] && all[j] == users[j];
      }
    }
  }

  /** An accepted form names a username and an e-mail address no user
      has. */
  lemma AcceptedMeansUnused(users: seq<User>, f: SignUp)
    requires RegistrationErrors(users, f) == []
    ensures forall j :: 0 <= j < |users| ==> users[j].username != f.username
    ensures forall j :: 0 <= j < |users| ==> users[j].email != f.email
  {
    RegistrationErrorsIff(users, f);
  }

  /** Add a user whose username and e-mail address are unused. */
  method InsertUser(db: Database, u: User)
    requires db.Valid()
    requires forall j :: 0 <= j < |db.users| ==> db.users[j].username != u.username
    requires forall j :: 0 <= j < |db.users| ==> db.users[j].email != u.email
    modifies db
    ensures db.Valid()
    ensures db.users == old(db.users) + [u]
    ensures db.accounts == old(db.accounts) && db.ledger == old(db.ledger) && db.attempts == old(db.attempts)
  {
    UniqueLoginsAppend(db.users, u);
    BooksValidGrows(db.State(), |db.users|, |db.users| + 1);
    db.users := db.users + [u];
  }

  /** `register` on the database: validate, then insert a user with the
      role 'user' and the hashed password; a failed commit rolls back. */
  method Register(db: Database, username: string, email: string, fullName: string, phone: string,
                  password: string, confirmPassword: string, clean: string -> string,
                  hash: string -> string, now: Time, commitFails: bool)
    returns (errors: seq<RegistrationError>, created: bool)
    requires db.Valid()
    modifies db
    ensures db.Valid()
    ensures var f := SanitizedSignUp(username, email, fullName, phone, password, confirmPassword, clean);
            && errors == RegistrationErrors(old(db.users), f)
            && (created <==> errors == [] && !commitFails)
            && (!created ==> db.users == old(db.users))
            && (created ==>
              && |db.users| == |old(db.users)| + 1 && db.users[..|old(db.users)|] == old(db.users)
              && var u := db.users[|old(db.users)|];
                 && fresh(u)
                 && u.username == f.username && u.email == f.email && u.fullName == f.fullName
                 && u.phone == f.phone && u.role == "user" && u.passwordHash == hash(f.password)
                 && u.Lock() == Cleared && u.isActive && u.lastLogin == None)
    ensures db.accounts == old(db.accounts) && db.ledger == old(db.ledger) && db.attempts == old(db.attempts)
  {
    var f := SanitizedSignUp(username, email, fullName, phone, password, confirmPassword, clean);
    errors := CollectErrors(db.users, f);
    if errors != [] || commitFails {
      return errors, false;
    }
    var u := new User(f.username, f.email, f.fullName, f.phone, "user", hash(f.password), now);
    AcceptedMeansUnused(db.users, f);
    InsertUser(db, u);
    created := true;
  }
}
