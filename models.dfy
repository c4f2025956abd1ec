/**
 * The persistent entities: users with their login-lockout state, bank
 * accounts, ledger rows and login attempts, and the database that holds
 * them. Tables are sequences whose positions are the rows' primary keys,
 * so a query's `.first()` is the lowest matching position.
 */
module Models {
  import opened Wrappers
  import opened Text
  import Security

  type UserId = nat
  type AccountId = nat

  /** A point in time, in seconds. */
  type Time = int

  /** The number of consecutive failures that locks a user out. */
  const LockThreshold: nat := 3

  /** How long a lock lasts: 30 minutes. */
  const LockDuration: int := 30 * 60

  // ---------------------------------------------------------------------
  // The login-lockout state machine
  // ---------------------------------------------------------------------

  /** The lockout fields of a user: `failed_login_attempts` and
      `account_locked_until`. */
  datatype LockState = LockState(failures: nat, lockedUntil: Option<Time>)

  /** The state `unlock_account` leaves behind. */
  const Cleared: LockState := LockState(0, None)

  /** `is_account_locked`: a lock is set and has not yet expired. */
  predicate IsLocked(s: LockState, now: Time)
  {
    s.lockedUntil.Some? && now < s.lockedUntil.value
  }

  /** The effect of `lock_account` at time `now`. */
  function AfterFailure(s: LockState, now: Time): LockState
  {
    var n := s.failures + 1;
    LockState(n, if n >= LockThreshold then Some(now + LockDuration) else s.lockedUntil)
  }

  /** One `lock_account` call per time in `times`, in order. */
  function AfterFailures(s: LockState, times: seq<Time>): LockState
    decreases |times|
  {
    if times == [] then s else AfterFailures(AfterFailure(s, times[0]), times[1..])
  }

  /** Each failure raises the counter by exactly one; expiry never resets it. */
  lemma {:induction false} FailuresAreCounted(s: LockState, times: seq<Time>)
    ensures AfterFailures(s, times).failures == s.failures + |times|
    decreases |times|
  {
    if times != [] {
      FailuresAreCounted(AfterFailure(s, times[0]), times[1..]);
    }
  }

  /** Below the threshold a failure leaves the lock exactly as it was; at or
      above it, the user is locked from the failure for 30 minutes. */
  lemma FailureLocksAtThreshold(s: LockState, now: Time, t: Time)
    ensures AfterFailure(s, now).failures == s.failures + 1
    ensures s.failures + 1 < LockThreshold ==>
              AfterFailure(s, now).lockedUntil == s.lockedUntil
              && (IsLocked(AfterFailure(s, now), t) <==> IsLocked(s, t))
    ensures s.failures + 1 >= LockThreshold ==>
              (IsLocked(AfterFailure(s, now), t) <==> t < now + LockDuration)
  {
  }

  /** Once the threshold has been reached, every further failure re-locks at
      once, even after the previous lock has expired. */
  lemma ExpiredLockRelocks(s: LockState, now: Time)
    requires s.failures >= LockThreshold
    ensures !IsLocked(s, now) ==> IsLocked(AfterFailure(s, now), now)
    ensures AfterFailure(s, now).lockedUntil == Some(now + LockDuration)
  {
  }

  /** Any run of failures that brings the counter to the threshold leaves the
      user locked until 30 minutes after the last of them. */
  lemma {:induction false} RepeatedFailuresLock(s: LockState, times: seq<Time>)
    requires |times| > 0 && s.failures + |times| >= LockThreshold
    ensures AfterFailures(s, times).lockedUntil == Some(times[|times| - 1] + LockDuration)
    decreases |times|
  {
    if |times| > 1 {
      RepeatedFailuresLock(AfterFailure(s, times[0]), times[1..]);
    }
  }

  /** Three failures at time `t` from a cleared state lock the user for
      exactly the 30 minutes that follow. */
  lemma ThreeFailuresLockThirtyMinutes(t: Time, x: Time)
    ensures AfterFailures(Cleared, [t, t, t]).failures == 3
    ensures IsLocked(AfterFailures(Cleared, [t, t, t]), x) <==> x < t + LockDuration
  {
    FailuresAreCounted(Cleared, [t, t, t]);
    RepeatedFailuresLock(Cleared, [t, t, t]);
  }

  /** A cleared user is unlocked at every time. */
  lemma ClearedIsNeverLocked(t: Time)
    ensures !IsLocked(Cleared, t) && Cleared.failures == 0
  {
  }

  /** A user: the fields the core updates in place are variables; the rest
      never change once the row exists. */
  class User {
    const username: string
    const email: string
    const fullName: string
    const phone: string
    const role: string
    const createdAt: Time
    var passwordHash: string
    var failedLoginAttempts: nat
    var accountLockedUntil: Option<Time>
    var lastLogin: Option<Time>
    var isActive: bool

    /** A new row with the column defaults: active, no failures, no lock,
        never logged in. */
    constructor (username: string, email: string, fullName: string, phone: string,
                 role: string, passwordHash: string, now: Time)
      ensures this.username == username && this.email == email
      ensures this.fullName == fullName && this.phone == phone
      ensures this.role == role && this.createdAt == now
      ensures this.passwordHash == passwordHash
      ensures Lock() == Cleared && lastLogin == None && isActive
    {
      this.username := username;
      this.email := email;
      this.fullName := fullName;
      this.phone := phone;
      this.role := role;
      this.createdAt := now;
      this.passwordHash := passwordHash;
      failedLoginAttempts := 0;
      accountLockedUntil := None;
      lastLogin := None;
      isActive := true;
    }

    /** The user's lockout state. */
    function Lock(): LockState
      reads this
    {
      LockState(failedLoginAttempts, accountLockedUntil)
    }

    /** `is_account_locked`, with the clock passed in. */
    predicate IsAccountLocked(now: Time)
      reads this
    {
      IsLocked(Lock(), now)
    }

    /** `is_admin`. */
    predicate IsAdmin()
    {
      role == "admin"
    }

    /** `lock_account`: count one more failure and lock for 30 minutes once
        the threshold is reached. */
    method LockAccount(now: Time)
      modifies this
      ensures Lock() == AfterFailure(old(Lock()), now)
      ensures passwordHash == old(passwordHash) && lastLogin == old(lastLogin)
      ensures isActive == old(isActive)
    {
      failedLoginAttempts := failedLoginAttempts + 1;
      if failedLoginAttempts >= LockThreshold {
        accountLockedUntil := Some(now + LockDuration);
      }
    }

    /** `unlock_account`: reset the counter and clear the lock. */
    method UnlockAccount()
      modifies this
      ensures Lock() == Cleared
      ensures passwordHash == old(passwordHash) && lastLogin == old(lastLogin)
      ensures isActive == old(isActive)
    {
      failedLoginAttempts := 0;
      accountLockedUntil := None;
    }

    /** `update_last_login`. */
    method UpdateLastLogin(now: Time)
      modifies this
      ensures lastLogin == Some(now)
      ensures Lock() == old(Lock()) && passwordHash == old(passwordHash)
      ensures isActive == old(isActive)
    {
      lastLogin := Some(now);
    }

    /** `set_password`; the salted hash is computed outside the model and
        passed in. */
    method SetPassword(hash: string)
      modifies this
      ensures passwordHash == hash
      ensures Lock() == old(Lock()) && lastLogin == old(lastLogin)
      ensures isActive == old(isActive)
    {
      passwordHash := hash;
    }
  }

  // ---------------------------------------------------------------------
  // Accounts, ledger rows, login attempts
  // ---------------------------------------------------------------------

  datatype AccountType = Checking | Savings

  /** An account row. `balance` is exact (`Numeric(15, 2)` read as Decimal). */
  datatype Account = Account(number: string, kind: AccountType, balance: real,
                             active: bool, owner: UserId, createdAt: Time)

  datatype TxnKind = TransferTxn | DepositTxn | WithdrawalTxn

  /** A ledger row (`Transaction`). */
  datatype Txn = Txn(kind: TxnKind, amount: real, description: string,
                     fromAccount: Option<AccountId>, toAccount: Option<AccountId>,
                     actor: UserId, ipAddress: Option<string>, userAgent: string,
                     createdAt: Time)

  /** A `LoginAttempt` row. */
  datatype LoginAttempt = LoginAttempt(ipAddress: string, username: string, success: bool,
                                       attemptedAt: Time, userAgent: string)

  /** The money-bearing part of the database: the accounts table and the
      transaction log. */
  datatype Books = Books(accounts: seq<Account>, ledger: seq<Txn>)

  /** The sum of the balances of `accounts`. */
  function TotalBalance(accounts: seq<Account>): real
  {
    if accounts == [] then 0.0
    else TotalBalance(accounts[..|accounts| - 1]) + accounts[|accounts| - 1].balance
  }

  /** Replacing one account changes the total by the change of its balance. */
  lemma {:induction false} TotalBalanceUpdate(accounts: seq<Account>, i: nat, a: Account)
    requires i < |accounts|
    ensures TotalBalance(accounts[i := a]) == TotalBalance(accounts) - accounts[i].balance + a.balance
  {
    var n := |accounts|;
    if i < n - 1 {
      TotalBalanceUpdate(accounts[..n - 1], i, a);
      assert accounts[i := a][..n - 1] == accounts[..n - 1][i := a];
    } else {
      assert accounts[i := a][..n - 1] == accounts[..n - 1];
    }
  }

  /** Appending an account adds its balance to the total. */
  lemma TotalBalanceAppend(accounts: seq<Account>, a: Account)
    ensures TotalBalance(accounts + [a]) == TotalBalance(accounts) + a.balance
  {
    assert (accounts + [a])[..|accounts|] == accounts;
  }

  /** The position of the first account satisfying `p`: a query's
      `.first()`. */
  function FirstWhere(accounts: seq<Account>, p: Account -> bool): (r: Option<AccountId>)
    ensures r.Some? ==> r.value < |accounts| && p(accounts[r.value])
                        && forall j :: 0 <= j < r.value ==> !p(accounts[j])
    ensures r.None? ==> forall j :: 0 <= j < |accounts| ==> !p(accounts[j])
  {
    if accounts == [] then None
    else if p(accounts[0]) then Some(0)
    else
      var r := FirstWhere(accounts[1..], p);
      assert forall j :: 1 <= j < |accounts| ==> accounts[j] == accounts[1..][j - 1];
      match r
      case None => None
      case Some(k) => Some(k + 1)
  }

  /** What a request carries for the audit columns: the X-Forwarded-For
      header, REMOTE_ADDR and the User-Agent header ('' when absent). */
  datatype RequestMeta = RequestMeta(forwardedFor: Option<string>, remoteAddr: Option<string>,
                                     userAgent: string)

  /** The numbers already in use. */
  function NumbersOf(accounts: seq<Account>): set<string>
  {
    set a | a in accounts :: a.number
  }

  /** Well-formed accounts: each owned by an existing user, never negative,
      with a well-formed number no other account has. */
  predicate AccountsValid(accounts: seq<Account>, userCount: nat)
  {
    && (forall i :: 0 <= i < |accounts| ==>
          accounts[i].owner < userCount && accounts[i].balance >= 0.0
          && Security.IsAccountNumber(accounts[i].number))
    && (forall i, j :: 0 <= i < j < |accounts| ==> accounts[i].number != accounts[j].number)
  }

  /** A well-formed ledger row: it names an existing actor and existing
      accounts, its amount is not negative, a transfer links two different
      accounts with a positive amount, and a deposit has no source. */
  predicate RowValid(t: Txn, accountCount: nat, userCount: nat)
  {
    && t.actor < userCount
    && (t.fromAccount.Some? ==> t.fromAccount.value < accountCount)
    && (t.toAccount.Some? ==> t.toAccount.value < accountCount)
    && t.amount >= 0.0
    && (t.kind == TransferTxn ==>
          t.fromAccount.Some? && t.toAccount.Some? && t.fromAccount != t.toAccount && t.amount > 0.0)
    && (t.kind == DepositTxn ==> t.fromAccount.None?)
  }

  predicate BooksValid(b: Books, userCount: nat)
  {
    && AccountsValid(b.accounts, userCount)
    && forall k :: 0 <= k < |b.ledger| ==> RowValid(b.ledger[k], |b.accounts|, userCount)
  }

  /** Adding users keeps the books well formed: no row or account refers to
      a user that disappears. */
  lemma BooksValidGrows(b: Books, n: nat, m: nat)
    requires n <= m && BooksValid(b, n)
    ensures BooksValid(b, m)
  {
    forall k | 0 <= k < |b.ledger|
      ensures RowValid(b.ledger[k], |b.accounts|, m)
    {
      assert RowValid(b.ledger[k], |b.accounts|, n);
    }
  }

  /** Usernames and e-mail addresses are unique (the columns' UNIQUE
      constraints); in particular no user object appears twice. */
  predicate UniqueLogins(users: seq<User>)
  {
    forall i, j :: 0 <= i < |users| && 0 <= j < |users| && i != j ==>
      users[i].username != users[j].username && users[i].email != users[j].email
  }

  // ---------------------------------------------------------------------
  // Account numbers
  // ---------------------------------------------------------------------

  /** One draw of `generate_account_number`: ten results of
      `secrets.randbelow(10)`. */
  predicate IsDraw(d: seq<int>)
  {
    |d| == 10 && forall i :: 0 <= i < 10 ==> 0 <= d[i] < 10
  }

  /** The number a draw spells out, `''.join(str(x) for x in d)`. */
  function DrawNumber(d: seq<int>): (s: string)
    requires IsDraw(d)
    ensures Security.IsAccountNumber(s)
    ensures forall i :: 0 <= i < 10 ==> s[i] as int - '0' as int == d[i]
  {
    seq(10, i requires 0 <= i < 10 => ('0' as int + d[i]) as char)
  }

  /** The number the retry loop returns for the random draws `draws`: the
      first that no account has, or None when every draw is taken (the
      source would keep drawing for ever). */
  function FirstUnused(taken: set<string>, draws: seq<seq<int>>): (r: Option<string>)
    requires forall k :: 0 <= k < |draws| ==> IsDraw(draws[k])
    ensures r.Some? ==> Security.IsAccountNumber(r.value) && r.value !in taken
    ensures r.None? <==> forall k :: 0 <= k < |draws| ==> DrawNumber(draws[k]) in taken
  {
    if draws == [] then None
    else if DrawNumber(draws[0]) !in taken then Some(DrawNumber(draws[0]))
    else
      var r := FirstUnused(taken, draws[1..]);
      assert forall k :: 1 <= k < |draws| ==> draws[k] == draws[1..][k - 1];
      r
  }

  /** `generate_account_number`: draw until a number no account has turns up. */
  method GenerateAccountNumber(taken: set<string>, draws: seq<seq<int>>) returns (r: Option<string>)
    requires forall k :: 0 <= k < |draws| ==> IsDraw(draws[k])
    ensures r == FirstUnused(taken, draws)
    ensures r.Some? ==> Security.IsAccountNumber(r.value) && r.value !in taken
  {
    var i := 0;
    while i < |draws|
      invariant 0 <= i <= |draws|
      invariant FirstUnused(taken, draws[i..]) == FirstUnused(taken, draws)
    {
      var candidate := DrawNumber(draws[i]);
      if candidate !in taken {
        return Some(candidate);
      }
      assert draws[i..][1..] == draws[i + 1..];
      i := i + 1;
    }
    return None;
  }

  /** The number the `Account` constructor ends up with: the one supplied,
      or a freshly generated one when none (or an empty one) is given. */
  method AccountNumberFor(supplied: string, taken: set<string>, draws: seq<seq<int>>)
    returns (r: Option<string>)
    requires forall k :: 0 <= k < |draws| ==> IsDraw(draws[k])
    ensures supplied != [] ==> r == Some(supplied)
    ensures supplied == [] ==> r == FirstUnused(taken, draws)
  {
    if supplied != [] {
      r := Some(supplied);
    } else {
      r := GenerateAccountNumber(taken, draws);
    }
  }

  /** Generated numbers always pass the account-number validator. */
  lemma GeneratedNumbersValidate(taken: set<string>, draws: seq<seq<int>>)
    requires forall k :: 0 <= k < |draws| ==> IsDraw(draws[k])
    ensures FirstUnused(taken, draws).Some? ==>
              Security.ValidateAccountNumber(FirstUnused(taken, draws))
  {
  }

  // ---------------------------------------------------------------------
  // The database
  // ---------------------------------------------------------------------

  /** The database session: the users, accounts, transactions and
      login-attempts tables. */
  class Database {
    var users: seq<User>
    var accounts: seq<Account>
    var ledger: seq<Txn>
    var attempts: seq<LoginAttempt>

    ghost function State(): Books
      reads this
    {
      Books(accounts, ledger)
    }

    ghost predicate Valid()
      reads this
    {
      UniqueLogins(users) && BooksValid(State(), |users|)
    }

    constructor ()
      ensures Valid()
      ensures users == [] && accounts == [] && ledger == [] && attempts == []
    {
      users := [];
      accounts := [];
      ledger := [];
      attempts := [];
    }
  }
}
