/**
 * The administrator's actions that change state: switching a user or an
 * account on and off, unlocking a user, resetting a password, and the
 * administrative deposit.
 *
 * Every action first looks its target up by id (`get_or_404`), so each
 * returns `NotFound` for an id with no row. The gate that only
 * administrators reach these actions is a precondition where the caller's
 * identity matters (the deposit records it) and is otherwise not modelled.
 */
module Admin {
  import opened Wrappers
  import opened Models
  import Text
  import Security
  import Money
  import Dashboard

  datatype AdminOutcome =
    | Done
    | NotFound
    | ProtectedAdmin
    | PasswordTooShort
    | WeakPassword(verdict: Security.PasswordCheck)

  /** The one username `toggle_user_status` refuses to touch. */
  const MainAdmin: string := "admin"

  // ---------------------------------------------------------------------
  // toggle_user_status
  // ---------------------------------------------------------------------

  /** The outcome and the new `is_active` of toggling a user with this
      username and flag. */
  function UserToggle(username: string, active: bool): (r: (AdminOutcome, bool))
    ensures r.0 == ProtectedAdmin <==> username == MainAdmin
    ensures r.0 == Done <==> username != MainAdmin
    ensures username == MainAdmin ==> r.1 == active
    ensures username != MainAdmin ==> r.1 != active
  {
    if username == MainAdmin then (ProtectedAdmin, active) else (Done, !active)
  }

  /** Toggling twice restores the flag, for every user; the guard looks at
      the username only, so the role plays no part. */
  lemma UserToggleTwiceRestores(username: string, active: bool)
    ensures UserToggle(username, UserToggle(username, active).1).1 == active
    ensures UserToggle(username, active).0 == UserToggle(username, !active).0
  {
  }

  /** `toggle_user_status`: flip the user's active flag unless the user is
      the main administrator; nothing else about the user changes. */
  method ToggleUserStatus(db: Database, userId: nat) returns (r: AdminOutcome)
    modifies if userId < |db.users| then {db.users[userId]} else {}
    ensures userId >= |db.users| ==> r == NotFound
    ensures userId < |db.users| ==>
              var u := db.users[userId];
              (r, u.isActive) == UserToggle(u.username, old(u.isActive))
              && u.Lock() == old(u.Lock()) && u.passwordHash == old(u.passwordHash)
              && u.lastLogin == old(u.lastLogin)
  {
    if userId >= |db.users| {
      return NotFound;
    }
    var u := db.users[userId];
    if u.username == MainAdmin {
      return ProtectedAdmin;
    }
    u.isActive := !u.isActive;
    r := Done;
  }

  // ---------------------------------------------------------------------
  // unlock_user
  // ---------------------------------------------------------------------

  /** `unlock_user`: clear the user's failure counter and lock. */
  method UnlockUser(db: Database, userId: nat, now: Time) returns (r: AdminOutcome)
    modifies if userId < |db.users| then {db.users[userId]} else {}
    ensures r == NotFound <==> userId >= |db.users|
    ensures r == Done <==> userId < |db.users|
    ensures userId < |db.users| ==>
              var u := db.users[userId];
              u.Lock() == Cleared && !u.IsAccountLocked(now)
              && u.passwordHash == old(u.passwordHash) && u.isActive == old(u.isActive)
              && u.lastLogin == old(u.lastLogin)
  {
    if userId >= |db.users| {
      return NotFound;
    }
    db.users[userId].UnlockAccount();
    r := Done;
  }

  // ---------------------------------------------------------------------
  // reset_user_password
  // ---------------------------------------------------------------------

  /** The checks of `reset_user_password` on the submitted password: missing
      or shorter than 8 characters, then the strength verdict. */
  function ResetPasswordCheck(newPassword: Option<string>): AdminOutcome
  {
    if newPassword.None? || |newPassword.value| < 8 then PasswordTooShort
    else
      var verdict := Security.ValidatePasswordStrength(newPassword.value);
      if verdict != Security.Strong then WeakPassword(verdict) else Done
  }

  /** A reset is accepted exactly when a strong password is submitted; a
      rejection names the first failing requirement, and because the length
      is checked before the strength test, a weak verdict is never the
      length one. */
  lemma ResetPasswordCheckIsStrength(newPassword: Option<string>)
    ensures ResetPasswordCheck(newPassword) == Done <==>
              newPassword.Some? && Security.ValidatePasswordStrength(newPassword.value) == Security.Strong
    ensures ResetPasswordCheck(newPassword) == PasswordTooShort <==>
              newPassword.None? || Security.ValidatePasswordStrength(newPassword.value) == Security.TooShort
    ensures ResetPasswordCheck(newPassword) != WeakPassword(Security.TooShort)
    ensures ResetPasswordCheck(newPassword).WeakPassword? ==>
              ResetPasswordCheck(newPassword).verdict == Security.ValidatePasswordStrength(newPassword.value)
  {
  }

  /** `reset_user_password`: on an accepted password, store its hash (`hash`
      stands for the salted key derivation) and unlock the user; on a
      rejection the user is untouched. */
  method ResetUserPassword(db: Database, userId: nat, newPassword: Option<string>,
                           hash: string -> string) returns (r: AdminOutcome)
    modifies if userId < |db.users| then {db.users[userId]} else {}
    ensures userId >= |db.users| ==> r == NotFound
    ensures userId < |db.users| ==>
              var u := db.users[userId];
              && r == ResetPasswordCheck(newPassword)
              && (r == Done ==> u.passwordHash == hash(newPassword.value) && u.Lock() == Cleared)
              && (r != Done ==> u.passwordHash == old(u.passwordHash) && u.Lock() == old(u.Lock()))
              && u.isActive == old(u.isActive) && u.lastLogin == old(u.lastLogin)
  {
    if userId >= |db.users| {
      return NotFound;
    }
    var u := db.users[userId];
    if newPassword.None? || |newPassword.value| < 8 {
      return PasswordTooShort;
    }
    var verdict := Security.ValidatePasswordStrength(newPassword.value);
    if verdict != Security.Strong {
      return WeakPassword(verdict);
    }
    u.SetPassword(hash(newPassword.value));
    u.UnlockAccount();
    r := Done;
  }

  // ---------------------------------------------------------------------
  // toggle_account_status
  // ---------------------------------------------------------------------

  /** `toggle_account_status`: flip the account's active flag, with no
      guard. */
  function ToggleAccountStep(b: Books, accountId: nat): (AdminOutcome, Books)
  {
    if accountId >= |b.accounts| then (NotFound, b)
    else
      var a := b.accounts[accountId];
      (Done, b.(accounts := b.accounts[accountId := a.(active := !a.active)]))
  }

  /** Only the account's flag changes: no balance, no ledger row, the same
      total; toggling twice restores the books. */
  lemma ToggleAccountEffect(b: Books, userCount: nat, accountId: nat)
    ensures var (r, b') := ToggleAccountStep(b, accountId);
            && (r == NotFound <==> accountId >= |b.accounts|)
            && (r == NotFound ==> b' == b)
            && (r == Done ==>
                  && |b'.accounts| == |b.accounts| && b'.ledger == b.ledger
                  && b'.accounts[accountId].active == !b.accounts[accountId].active
                  && b'.accounts[accountId].(active := true) == b.accounts[accountId].(active := true)
                  && (forall i :: 0 <= i < |b.accounts| && i != accountId ==> b'.accounts[i] == b.accounts[i]))
            && TotalBalance(b'.accounts) == TotalBalance(b.accounts)
            && ToggleAccountStep(b', accountId).1 == b
            && (BooksValid(b, userCount) ==> BooksValid(b', userCount))
  {
    if accountId < |b.accounts| {
      var a := b.accounts[accountId];
      TotalBalanceUpdate(b.accounts, accountId, a.(active := !a.active));
      var b' := ToggleAccountStep(b, accountId).1;
      assert b'.accounts[accountId := a] == b.accounts;
    }
  }

  /** Switching an account off removes its balance from the owner's
      dashboard total (the money stays in the bank's total); switching it
      back on restores it. */
  lemma ToggleAccountMovesDashboardTotal(b: Books, accountId: nat)
    requires accountId < |b.accounts|
    ensures var a := b.accounts[accountId];
            var after := DashboardTotalAfterToggle(b, accountId);
            && (a.active ==> after == Dashboard.DashboardTotal(b.accounts, a.owner) - a.balance)
            && (!a.active ==> after == Dashboard.DashboardTotal(b.accounts, a.owner) + a.balance)
  {
    var a := b.accounts[accountId];
    Dashboard.DashboardTotalUpdate(b.accounts, a.owner, accountId, a.(active := !a.active));
  }

  /** The owner's dashboard total after toggling `accountId`. */
  function DashboardTotalAfterToggle(b: Books, accountId: nat): real
    requires accountId < |b.accounts|
  {
    Dashboard.DashboardTotal(ToggleAccountStep(b, accountId).1.accounts, b.accounts[accountId].owner)
  }

  /** With no guard, reactivating an account can leave its owner with two
      active accounts of one type, which opening an account never does. */
  lemma ReactivationCanDuplicateType()
    ensures var old_ := Account("1111111111", Checking, 0.0, false, 0, 0);
            var new_ := Account("2222222222", Checking, 0.0, true, 0, 1);
            var b := Books([old_, new_], []);
            && Dashboard.OneActivePerType(b.accounts)
            && ToggleAccountStep(b, 0).0 == Done
            && !Dashboard.OneActivePerType(ToggleAccountStep(b, 0).1.accounts)
  {
    var b' := ToggleAccountStep(Books([Account("1111111111", Checking, 0.0, false, 0, 0),
                                       Account("2222222222", Checking, 0.0, true, 0, 1)], []), 0).1;
    assert b'.accounts[0].active && b'.accounts[1].active;
  }

  /** `toggle_account_status` on the database. */
  method ToggleAccountStatus(db: Database, accountId: nat) returns (r: AdminOutcome)
    requires db.Valid()
    modifies db
    ensures (r, db.State()) == ToggleAccountStep(old(db.State()), accountId)
    ensures db.Valid()
    ensures db.users == old(db.users) && db.attempts == old(db.attempts)
  {
    ToggleAccountEffect(db.State(), |db.users|, accountId);
    if accountId >= |db.accounts| {
      return NotFound;
    }
    db.accounts := db.accounts[accountId := db.accounts[accountId].(active := !db.accounts[accountId].active)];
    r := Done;
  }

  // ---------------------------------------------------------------------
  // add_balance
  // ---------------------------------------------------------------------

  datatype DepositError =
    | UserNotFound
    | InvalidAmount
    | NonPositiveAmount
    | AmountOverflow
    | MissingDescription
    | DescriptionTooLong
    | NoFreshNumber
    | DepositFailed

  datatype DepositOutcome =
    | Deposited(amount: real, newBalance: real)
    | DepositRejected(reason: DepositError)

  /** The prefix of a deposit row's description, "administrative deposit: ". */
  const DepositPrefix: string := "إيداع إداري: "

  /** The longest description a deposit accepts. */
  const MaxDescription: nat := 255

  /** The filter `user_id = owner, is_active = True`. */
  function ActiveOwnedBy(owner: UserId): Account -> bool
  {
    (a: Account) => a.owner == owner && a.active
  }

  /** The ledger row of a deposit. `to` is None when the money went to an
      account created by the same request: its id is read before the
      session has assigned one. */
  function DepositRow(amount: real, description: string, to: Option<AccountId>, admin: UserId,
                      meta: RequestMeta, now: Time): Txn
  {
    Txn(DepositTxn, amount, DepositPrefix + description, None, to, admin, meta.remoteAddr,
        meta.userAgent, now)
  }

  /** The outcome of the request checks of `add_balance`. */
  datatype DepositRequest = RejectRequest(reason: DepositError) | AcceptRequest(amount: real, description: string)

  /** The request checks of `add_balance`, in order: the user must exist,
      the amount must parse (`amountIn` is the parsed value, None when
      `Decimal` rejects the text) and be positive, and is then rounded to
      cents, which raises InvalidOperation when the cents need more than
      the 28 digits of the default decimal context; nothing catches that
      exception, so the request ends in a server error (`AmountOverflow`)
      with nothing written. Last, the stripped description must be present and at most 255
      characters. */
  function CheckDeposit(userCount: nat, userId: nat, amountIn: Option<real>,
                        descriptionIn: Option<string>): DepositRequest
  {
    var description := Text.Strip(descriptionIn.GetOr(""));
    if userId >= userCount then RejectRequest(UserNotFound)
    else if amountIn.None? then RejectRequest(InvalidAmount)
    else if amountIn.value <= 0.0 then RejectRequest(NonPositiveAmount)
    else
      var amount := Money.Quantize(amountIn.value);
      if amount >= Money.QuantizeLimit then RejectRequest(AmountOverflow)
      else if description == [] then RejectRequest(MissingDescription)
      else if |description| > MaxDescription then RejectRequest(DescriptionTooLong)
      else AcceptRequest(amount, description)
  }

  /** A request is accepted exactly when the user exists, the amount parses,
      is positive and stays below 10^26 once rounded (from 10^26 - 0.005 on
      the rounding raises), and the stripped description is present and at
      most 255 characters. The accepted amount is the rounded one, never
      negative, and the amount errors are reported before the description
      errors. */
  lemma CheckDepositAcceptsIff(userCount: nat, userId: nat, amountIn: Option<real>,
                               descriptionIn: Option<string>)
    ensures var c := CheckDeposit(userCount, userId, amountIn, descriptionIn);
            var description := Text.Strip(descriptionIn.GetOr(""));
            && (c.AcceptRequest? <==>
                  userId < userCount && amountIn.Some? && amountIn.value > 0.0
                  && amountIn.value < Money.QuantizeLimit - 0.005
                  && description != [] && |description| <= MaxDescription)
            && (c.AcceptRequest? ==>
                  c.amount == Money.Quantize(amountIn.value) && c.amount >= 0.0
                  && c.description == description)
            && (userId < userCount && (amountIn.None? || amountIn.value <= 0.0) ==>
                  c == RejectRequest(if amountIn.None? then InvalidAmount else NonPositiveAmount))
            && (userId < userCount && amountIn.Some? && amountIn.value >= Money.QuantizeLimit - 0.005 ==>
                  c == RejectRequest(AmountOverflow))
  {
    if userId < userCount && amountIn.Some? && amountIn.value > 0.0 {
      Money.QuantizePositive(amountIn.value);
      Money.QuantizeOverflowIff(amountIn.value);
      var description := Text.Strip(descriptionIn.GetOr(""));
      if description != [] && |description| <= MaxDescription && amountIn.value < Money.QuantizeLimit - 0.005 {
        assert CheckDeposit(userCount, userId, amountIn, descriptionIn)
            == AcceptRequest(Money.Quantize(amountIn.value), description);
      }
    }
  }

  /** Crediting an accepted deposit: the money goes to the user's first
      active account, or to a new checking account when there is none; one
      deposit row is added. A failed commit rolls back. */
  function ApplyDeposit(b: Books, admin: UserId, userId: UserId, amount: real, description: string,
                        meta: RequestMeta, now: Time, draws: seq<seq<int>>, commitFails: bool)
    : (DepositOutcome, Books)
    requires forall k :: 0 <= k < |draws| ==> IsDraw(draws[k])
  {
    match FirstWhere(b.accounts, ActiveOwnedBy(userId))
    case Some(k) =>
      if commitFails then (DepositRejected(DepositFailed), b)
      else
        var balance := b.accounts[k].balance + amount;
        (Deposited(amount, balance),
         Books(b.accounts[k := b.accounts[k].(balance := balance)],
               b.ledger + [DepositRow(amount, description, Some(k), admin, meta, now)]))
    case None =>
      match FirstUnused(NumbersOf(b.accounts), draws)
      case None => (DepositRejected(NoFreshNumber), b)
      case Some(number) =>
        if commitFails then (DepositRejected(DepositFailed), b)
        else
          (Deposited(amount, 0.0 + amount),
           Books(b.accounts + [Account(number, Checking, 0.0 + amount, true, userId, now)],
                 b.ledger + [DepositRow(amount, description, None, admin, meta, now)]))
  }

  /** `add_balance`: the request checks, then the credit. */
  function DepositStep(b: Books, userCount: nat, admin: UserId, userId: nat, amountIn: Option<real>,
                       descriptionIn: Option<string>, meta: RequestMeta, now: Time,
                       draws: seq<seq<int>>, commitFails: bool): (DepositOutcome, Books)
    requires forall k :: 0 <= k < |draws| ==> IsDraw(draws[k])
  {
    match CheckDeposit(userCount, userId, amountIn, descriptionIn)
    case RejectRequest(reason) => (DepositRejected(reason), b)
    case AcceptRequest(amount, description) =>
      ApplyDeposit(b, admin, userId, amount, description, meta, now, draws, commitFails)
  }

  /** A credit succeeds exactly when the user has an active account or a
      fresh number can be drawn, and the commit goes through; any rejection
      leaves the books as they were. */
  lemma ApplyDepositSucceedsIff(b: Books, admin: UserId, userId: UserId, amount: real, description: string,
                                meta: RequestMeta, now: Time, draws: seq<seq<int>>, commitFails: bool)
    requires forall k :: 0 <= k < |draws| ==> IsDraw(draws[k])
    ensures var (r, b') := ApplyDeposit(b, admin, userId, amount, description, meta, now, draws, commitFails);
            && (r.Deposited? <==>
                  (FirstWhere(b.accounts, ActiveOwnedBy(userId)).Some?
                   || FirstUnused(NumbersOf(b.accounts), draws).Some?)
                  && !commitFails)
            && (r.DepositRejected? ==> b' == b)
            && (r.Deposited? ==> r.amount == amount)
  {
  }

  /** A committed credit of `amount` raises the bank's total by exactly that
      much and appends exactly one deposit row, from no account, for that
      amount, recording the administrator and the prefixed description. */
  lemma ApplyDepositCreditsAmount(b: Books, admin: UserId, userId: UserId, amount: real, description: string,
                                  meta: RequestMeta, now: Time, draws: seq<seq<int>>, commitFails: bool)
    requires forall k :: 0 <= k < |draws| ==> IsDraw(draws[k])
    ensures var (r, b') := ApplyDeposit(b, admin, userId, amount, description, meta, now, draws, commitFails);
            r.Deposited? ==>
              && TotalBalance(b'.accounts) == TotalBalance(b.accounts) + amount
              && |b'.ledger| == |b.ledger| + 1 && b'.ledger[..|b.ledger|] == b.ledger
              && var t := b'.ledger[|b.ledger|];
                 && t.kind == DepositTxn && t.amount == amount && t.fromAccount.None?
                 && t.actor == admin && t.description == DepositPrefix + description
  {
    var (r, b') := ApplyDeposit(b, admin, userId, amount, description, meta, now, draws, commitFails);
    if r.Deposited? {
      match FirstWhere(b.accounts, ActiveOwnedBy(userId))
      case Some(k) =>
        TotalBalanceUpdate(b.accounts, k, b.accounts[k].(balance := b.accounts[k].balance + amount));
      case None =>
        TotalBalanceAppend(b.accounts, b'.accounts[|b.accounts|]);
    }
  }

  /** The target: the user's first active account, whatever its type, whose
      balance rises by the amount while every other account stays as it
      was; with no active account, a new active checking account for the
      user holding just the amount, whose row names no target account. */
  lemma ApplyDepositTarget(b: Books, admin: UserId, userId: UserId, amount: real, description: string,
                           meta: RequestMeta, now: Time, draws: seq<seq<int>>, commitFails: bool)
    requires forall k :: 0 <= k < |draws| ==> IsDraw(draws[k])
    ensures var (r, b') := ApplyDeposit(b, admin, userId, amount, description, meta, now, draws, commitFails);
            var target := FirstWhere(b.accounts, ActiveOwnedBy(userId));
            && (r.Deposited? && target.Some? ==>
                  var k := target.value;
                  && b.accounts[k].owner == userId && b.accounts[k].active
                  && (forall j :: 0 <= j < k ==> !(b.accounts[j].owner == userId && b.accounts[j].active))
                  && |b'.accounts| == |b.accounts|
                  && b'.accounts[k].balance == b.accounts[k].balance + amount == r.newBalance
                  && (forall j :: 0 <= j < |b.accounts| && j != k ==> b'.accounts[j] == b.accounts[j])
                  && b'.ledger[|b.ledger|].toAccount == Some(k))
            && (r.Deposited? && target.None? ==>
                  && |b'.accounts| == |b.accounts| + 1 && b'.accounts[..|b.accounts|] == b.accounts
                  && var a := b'.accounts[|b.accounts|];
                     a.owner == userId && a.active && a.kind == Checking
                     && a.balance == amount == r.newBalance
                     && a.number !in NumbersOf(b.accounts) && Security.IsAccountNumber(a.number)
                     && b'.ledger[|b.ledger|].toAccount.None?)
  {
    var (r, b') := ApplyDeposit(b, admin, userId, amount, description, meta, now, draws, commitFails);
    if r.Deposited? && FirstWhere(b.accounts, ActiveOwnedBy(userId)).None? {
      assert b'.accounts[..|b.accounts|] == b.accounts;
    }
  }

  /** Crediting an existing account keeps the accounts well formed. */
  lemma CreditKeepsAccountsValid(accounts: seq<Account>, userCount: nat, k: nat, amount: real)
    requires AccountsValid(accounts, userCount) && k < |accounts| && amount >= 0.0
    ensures AccountsValid(accounts[k := accounts[k].(balance := accounts[k].balance + amount)], userCount)
  {
  }

  /** Opening an account for an existing user under a fresh number keeps
      the accounts well formed. */
  lemma OpenKeepsAccountsValid(accounts: seq<Account>, userCount: nat, a: Account)
    requires AccountsValid(accounts, userCount)
    requires a.owner < userCount && a.balance >= 0.0 && Security.IsAccountNumber(a.number)
    requires a.number !in NumbersOf(accounts)
    ensures AccountsValid(accounts + [a], userCount)
  {
    forall i | 0 <= i < |accounts| ensures accounts[i].number != a.number {
      assert accounts[i] in accounts;
    }
  }

  /** Appending a well-formed row to a ledger of well-formed rows, over a
      table that does not shrink, keeps every row well formed. */
  lemma AppendKeepsRowsValid(ledger: seq<Txn>, t: Txn, oldCount: nat, newCount: nat, userCount: nat)
    requires oldCount <= newCount
    requires forall k :: 0 <= k < |ledger| ==> RowValid(ledger[k], oldCount, userCount)
    requires RowValid(t, newCount, userCount)
    ensures forall k :: 0 <= k < |ledger + [t]| ==> RowValid((ledger + [t])[k], newCount, userCount)
  {
    forall k | 0 <= k < |ledger + [t]| ensures RowValid((ledger + [t])[k], newCount, userCount) {
      if k < |ledger| {
        assert (ledger + [t])[k] == ledger[k];
      }
    }
  }

  /** A credit of a non-negative amount to an existing user keeps every
      invariant of the books. */
  lemma ApplyDepositKeepsInvariants(b: Books, userCount: nat, admin: UserId, userId: UserId, amount: real,
                                    description: string, meta: RequestMeta, now: Time,
                                    draws: seq<seq<int>>, commitFails: bool)
    requires forall k :: 0 <= k < |draws| ==> IsDraw(draws[k])
    requires BooksValid(b, userCount) && admin < userCount && userId < userCount && amount >= 0.0
    ensures BooksValid(ApplyDeposit(b, admin, userId, amount, description, meta, now, draws, commitFails).1,
                       userCount)
  {
    if !commitFails {
      match FirstWhere(b.accounts, ActiveOwnedBy(userId))
      case Some(k) =>
        CreditKeepsAccountsValid(b.accounts, userCount, k, amount);
        AppendKeepsRowsValid(b.ledger, DepositRow(amount, description, Some(k), admin, meta, now),
                             |b.accounts|, |b.accounts|, userCount);
      case None =>
        match FirstUnused(NumbersOf(b.accounts), draws)
        case None =>
        case Some(number) =>
          OpenKeepsAccountsValid(b.accounts, userCount, Account(number, Checking, 0.0 + amount, true, userId, now));
          AppendKeepsRowsValid(b.ledger, DepositRow(amount, description, None, admin, meta, now),
                               |b.accounts|, |b.accounts| + 1, userCount);
    }
  }

  /** A deposit keeps every invariant of the books: balances stay
      non-negative, numbers unique, and the new row is well formed. */
  lemma DepositKeepsInvariants(b: Books, userCount: nat, admin: UserId, userId: nat, amountIn: Option<real>,
                               descriptionIn: Option<string>, meta: RequestMeta, now: Time,
                               draws: seq<seq<int>>, commitFails: bool)
    requires forall k :: 0 <= k < |draws| ==> IsDraw(draws[k])
    requires BooksValid(b, userCount) && admin < userCount
    ensures BooksValid(DepositStep(b, userCount, admin, userId, amountIn, descriptionIn, meta, now,
                                   draws, commitFails).1, userCount)
  {
    CheckDepositAcceptsIff(userCount, userId, amountIn, descriptionIn);
    match CheckDeposit(userCount, userId, amountIn, descriptionIn)
    case RejectRequest(_) =>
    case AcceptRequest(amount, description) =>
      ApplyDepositKeepsInvariants(b, userCount, admin, userId, amount, description, meta, now, draws, commitFails);
  }

  /** A deposit of 10^26 - 0.005 or more for an existing user ends in the
      server error of the rounding, with the books as they were, whatever
      the description says. */
  lemma OverflowingDepositChangesNothing(b: Books, userCount: nat, admin: UserId, userId: nat, v: real,
                                         descriptionIn: Option<string>, meta: RequestMeta, now: Time,
                                         draws: seq<seq<int>>, commitFails: bool)
    requires forall k :: 0 <= k < |draws| ==> IsDraw(draws[k])
    requires userId < userCount && v >= Money.QuantizeLimit - 0.005
    ensures DepositStep(b, userCount, admin, userId, Some(v), descriptionIn, meta, now, draws, commitFails)
            == (DepositRejected(AmountOverflow), b)
  {
    CheckDepositAcceptsIff(userCount, userId, Some(v), descriptionIn);
  }

  /** A positive amount below half a cent passes the positivity check,
      which runs before the rounding, and is then recorded and credited as
      0.00: the request succeeds, adds a deposit row of 0.00 and leaves the
      bank's total as it was. */
  lemma SubCentDepositIsRecordedAsZero(b: Books, userCount: nat, admin: UserId, userId: nat, v: real,
                                       descriptionIn: Option<string>, meta: RequestMeta, now: Time,
                                       draws: seq<seq<int>>)
    requires forall k :: 0 <= k < |draws| ==> IsDraw(draws[k])
    requires 0.0 < v < 0.005 && userId < userCount
    requires Text.Strip(descriptionIn.GetOr("")) != [] && |Text.Strip(descriptionIn.GetOr(""))| <= MaxDescription
    requires FirstWhere(b.accounts, ActiveOwnedBy(userId)).Some?
    ensures var (r, b') := DepositStep(b, userCount, admin, userId, Some(v), descriptionIn, meta, now, draws, false);
            && r.Deposited? && r.amount == 0.0
            && TotalBalance(b'.accounts) == TotalBalance(b.accounts)
            && |b'.ledger| == |b.ledger| + 1
            && b'.ledger[|b.ledger|].kind == DepositTxn && b'.ledger[|b.ledger|].amount == 0.0
  {
    Money.QuantizePositive(v);
    CheckDepositAcceptsIff(userCount, userId, Some(v), descriptionIn);
    var description := Text.Strip(descriptionIn.GetOr(""));
    ApplyDepositSucceedsIff(b, admin, userId, 0.0, description, meta, now, draws, false);
    ApplyDepositCreditsAmount(b, admin, userId, 0.0, description, meta, now, draws, false);
  }

  /** The credit to an existing account and its row, made in place. */
  method Credit(db: Database, k: AccountId, amount: real, row: Txn)
    requires k < |db.accounts|
    modifies db
    ensures db.accounts == old(db.accounts)[k := old(db.accounts)[k].(balance := old(db.accounts)[k].balance + amount)]
    ensures db.ledger == old(db.ledger) + [row]
    ensures db.users == old(db.users) && db.attempts == old(db.attempts)
  {
    db.accounts := db.accounts[k := db.accounts[k].(balance := db.accounts[k].balance + amount)];
    db.ledger := db.ledger + [row];
  }

  /** `add_balance` on the database. */
  method AddBalance(db: Database, admin: UserId, userId: nat, amountIn: Option<real>,
                    descriptionIn: Option<string>, meta: RequestMeta, now: Time,
                    draws: seq<seq<int>>, commitFails: bool) returns (r: DepositOutcome)
    requires db.Valid() && admin < |db.users| && db.users[admin].IsAdmin()
    requires forall k :: 0 <= k < |draws| ==> IsDraw(draws[k])
    modifies db
    ensures (r, db.State()) == DepositStep(old(db.State()), |old(db.users)|, admin, userId, amountIn,
                                           descriptionIn, meta, now, draws, commitFails)
    ensures db.Valid()
    ensures db.users == old(db.users) && db.attempts == old(db.attempts)
  {
    DepositKeepsInvariants(db.State(), |db.users|, admin, userId, amountIn, descriptionIn, meta, now,
                           draws, commitFails);
    if userId >= |db.users| {
      return DepositRejected(UserNotFound);
    }
    var description := Text.Strip(descriptionIn.GetOr(""));
    if amountIn.None? {
      return DepositRejected(InvalidAmount);
    }
    if amountIn.value <= 0.0 {
      return DepositRejected(NonPositiveAmount);
    }
    var amount := Money.Quantize(amountIn.value);
    if amount >= Money.QuantizeLimit {
      return DepositRejected(AmountOverflow);
    }
    if description == [] {
      return DepositRejected(MissingDescription);
    }
    if |description| > MaxDescription {
      return DepositRejected(DescriptionTooLong);
    }
    assert CheckDeposit(|db.users|, userId, amountIn, descriptionIn) == AcceptRequest(amount, description);
    r := CreditTarget(db, admin, userId, amount, description, meta, now, draws, commitFails);
  }

  /** The credit of an accepted deposit on the database: find or open the
      target account, credit it, add the row, and roll back when the commit
      fails. */
  method CreditTarget(db: Database, admin: UserId, userId: UserId, amount: real, description: string,
                      meta: RequestMeta, now: Time, draws: seq<seq<int>>, commitFails: bool)
    returns (r: DepositOutcome)
    requires forall k :: 0 <= k < |draws| ==> IsDraw(draws[k])
    modifies db
    ensures (r, db.State()) == ApplyDeposit(old(db.State()), admin, userId, amount, description, meta, now,
                                            draws, commitFails)
    ensures db.users == old(db.users) && db.attempts == old(db.attempts)
  {
    var savedAccounts, savedLedger := db.accounts, db.ledger;
    var target := FirstWhere(db.accounts, ActiveOwnedBy(userId));
    var to: Option<AccountId>;
    var k: AccountId;
    if target.Some? {
      k, to := target.value, target;
    } else {
      var number := AccountNumberFor("", NumbersOf(db.accounts), draws);
      if number.None? {
        return DepositRejected(NoFreshNumber);
      }
      var newAccount := Account(number.value, Checking, 0.0, true, userId, now);
      db.accounts := db.accounts + [newAccount];
      k, to := |db.accounts| - 1, None;
      assert db.accounts[k := newAccount.(balance := 0.0 + amount)]
          == savedAccounts + [Account(number.value, Checking, 0.0 + amount, true, userId, now)];
    }
    Credit(db, k, amount, DepositRow(amount, description, to, admin, meta, now));
    if commitFails {
      db.accounts, db.ledger := savedAccounts, savedLedger;
      return DepositRejected(DepositFailed);
    }
    r := Deposited(amount, db.accounts[k].balance);
  }
}
