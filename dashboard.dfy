/**
 * The user dashboard: the total shown on the index page, opening an
 * account, and a transfer between two accounts.
 *
 * Each request is a pure step over the books (`CreateAccountStep`,
 * `TransferStep`) whose properties are proved as lemmas, and an imperative
 * method on the database proved to perform exactly that step.
 */
module Dashboard {
  import opened Wrappers
  import opened Models
  import Security

  // ---------------------------------------------------------------------
  // index: the total balance
  // ---------------------------------------------------------------------

  /** What one account adds to `caller`'s dashboard total: its balance when
      it is the caller's and active, nothing otherwise. */
  function Counted(a: Account, caller: UserId): real
  {
    if a.owner == caller && a.active then a.balance else 0.0
  }

  /** The total on the dashboard: the sum of the balances of the caller's
      active accounts. */
  function DashboardTotal(accounts: seq<Account>, caller: UserId): real
  {
    if accounts == [] then 0.0
    else DashboardTotal(accounts[..|accounts| - 1], caller) + Counted(accounts[|accounts| - 1], caller)
  }

  /** With no negative balance, the dashboard total lies between zero and
      the bank's total; it is zero for a caller with no active account. */
  lemma {:induction false} DashboardTotalBounds(accounts: seq<Account>, caller: UserId)
    ensures (forall i :: 0 <= i < |accounts| ==> accounts[i].balance >= 0.0) ==>
              0.0 <= DashboardTotal(accounts, caller) <= TotalBalance(accounts)
    ensures (forall i :: 0 <= i < |accounts| ==> !(accounts[i].owner == caller && accounts[i].active))
              ==> DashboardTotal(accounts, caller) == 0.0
  {
    if accounts != [] {
      var n := |accounts|;
      DashboardTotalBounds(accounts[..n - 1], caller);
      assert forall i :: 0 <= i < n - 1 ==> accounts[..n - 1][i] == accounts[i];
    }
  }

  /** Replacing one account changes the caller's total by the change in
      what that account contributes: its balance when it is the caller's
      and active, nothing otherwise. */
  lemma {:induction false} DashboardTotalUpdate(accounts: seq<Account>, caller: UserId, i: nat, a: Account)
    requires i < |accounts|
    ensures DashboardTotal(accounts[i := a], caller)
              == DashboardTotal(accounts, caller) - Counted(accounts[i], caller) + Counted(a, caller)
  {
    var n := |accounts|;
    if i < n - 1 {
      DashboardTotalUpdate(accounts[..n - 1], caller, i, a);
      assert accounts[i := a][..n - 1] == accounts[..n - 1][i := a];
    } else {
      assert accounts[i := a][..n - 1] == accounts[..n - 1];
    }
  }

  // ---------------------------------------------------------------------
  // create_account
  // ---------------------------------------------------------------------

  /** The account type named by the form field: only 'checking' and
      'savings' are accepted. */
  function ParseAccountType(text: string): (r: Option<AccountType>)
    ensures r == Some(Checking) <==> text == "checking"
    ensures r == Some(Savings) <==> text == "savings"
  {
    if text == "checking" then Some(Checking)
    else if text == "savings" then Some(Savings)
    else None
  }

  /** The filter `user_id = owner, account_type = kind, is_active = True`. */
  function ActiveOfType(owner: UserId, kind: AccountType): Account -> bool
  {
    (a: Account) => a.owner == owner && a.kind == kind && a.active
  }

  datatype CreateError = InvalidAccountType | DuplicateAccountType | NoFreshNumber | CreateFailed

  datatype CreateOutcome = Created(account: AccountId) | CreateRejected(reason: CreateError)

  /** `create_account`: reject an unknown type, reject a second active
      account of a type, otherwise add one active account with balance 0
      and a fresh number (unless the commit fails, which rolls back). */
  function CreateAccountStep(b: Books, caller: UserId, kindText: string, now: Time,
                             draws: seq<seq<int>>, commitFails: bool): (CreateOutcome, Books)
    requires forall k :: 0 <= k < |draws| ==> IsDraw(draws[k])
  {
    match ParseAccountType(kindText)
    case None => (CreateRejected(InvalidAccountType), b)
    case Some(kind) =>
      if FirstWhere(b.accounts, ActiveOfType(caller, kind)).Some? then
        (CreateRejected(DuplicateAccountType), b)
      else
        match FirstUnused(NumbersOf(b.accounts), draws)
        case None => (CreateRejected(NoFreshNumber), b)
        case Some(number) =>
          if commitFails then (CreateRejected(CreateFailed), b)
          else (Created(|b.accounts|),
                Books(b.accounts + [Account(number, kind, 0.0, true, caller, now)], b.ledger))
  }

  /** A successful request adds exactly one account, active, owned by the
      caller, of the requested type, with balance 0 and a number no other
      account has, and touches nothing else; any rejection changes
      nothing. It succeeds exactly when the type is known, the caller has
      no active account of that type, a fresh number is drawn and the
      commit goes through. */
  lemma CreateAccountEffect(b: Books, caller: UserId, kindText: string, now: Time,
                            draws: seq<seq<int>>, commitFails: bool)
    requires forall k :: 0 <= k < |draws| ==> IsDraw(draws[k])
    ensures var (r, b') := CreateAccountStep(b, caller, kindText, now, draws, commitFails);
            && (r.Created? <==>
                  ParseAccountType(kindText).Some?
                  && (forall i :: 0 <= i < |b.accounts| ==>
                        !ActiveOfType(caller, ParseAccountType(kindText).value)(b.accounts[i]))
                  && FirstUnused(NumbersOf(b.accounts), draws).Some?
                  && !commitFails)
            && (r.Created? ==>
                  r.account == |b.accounts| && |b'.accounts| == |b.accounts| + 1
                  && b'.accounts[..|b.accounts|] == b.accounts && b'.ledger == b.ledger
                  && var a := b'.accounts[r.account];
                     a.owner == caller && a.balance == 0.0 && a.active
                     && Some(a.kind) == ParseAccountType(kindText)
                     && Security.IsAccountNumber(a.number) && a.number !in NumbersOf(b.accounts))
            && (r.CreateRejected? ==> b' == b)
            && (ParseAccountType(kindText).None? ==> r == CreateRejected(InvalidAccountType))
  {
    var (r, b') := CreateAccountStep(b, caller, kindText, now, draws, commitFails);
    if r.Created? {
      assert (b.accounts + [b'.accounts[r.account]])[..|b.accounts|] == b.accounts;
    }
  }

  /** At most one active account per owner and type (the invariant
      `create_account` is meant to keep). */
  predicate OneActivePerType(accounts: seq<Account>)
  {
    forall i, j ::
      0 <= i < j < |accounts| && accounts[i].active && accounts[j].active
      && accounts[i].owner == accounts[j].owner
      ==> accounts[i].kind != accounts[j].kind
  }

  /** Opening an account keeps every invariant of the books and at most one
      active account per owner and type. */
  lemma CreateAccountKeepsInvariants(b: Books, userCount: nat, caller: UserId, kindText: string,
                                     now: Time, draws: seq<seq<int>>, commitFails: bool)
    requires forall k :: 0 <= k < |draws| ==> IsDraw(draws[k])
    requires BooksValid(b, userCount) && caller < userCount
    ensures BooksValid(CreateAccountStep(b, caller, kindText, now, draws, commitFails).1, userCount)
    ensures OneActivePerType(b.accounts) ==>
              OneActivePerType(CreateAccountStep(b, caller, kindText, now, draws, commitFails).1.accounts)
  {
    CreateAccountEffect(b, caller, kindText, now, draws, commitFails);
    var (r, b') := CreateAccountStep(b, caller, kindText, now, draws, commitFails);
    if r.Created? {
      var n := |b.accounts|;
      var a := b'.accounts[n];
      forall i | 0 <= i < n ensures b.accounts[i].number != a.number {
        assert b.accounts[i] in b.accounts;
      }
      forall i | 0 <= i < n && b.accounts[i].active && b.accounts[i].owner == caller
        ensures b.accounts[i].kind != a.kind
      {
        assert !ActiveOfType(caller, a.kind)(b.accounts[i]);
      }
    }
  }

  /** `create_account` on the database. */
  method CreateAccount(db: Database, caller: UserId, kindText: string, now: Time,
                       draws: seq<seq<int>>, commitFails: bool) returns (r: CreateOutcome)
    requires db.Valid() && caller < |db.users|
    requires forall k :: 0 <= k < |draws| ==> IsDraw(draws[k])
    modifies db
    ensures (r, db.State()) == CreateAccountStep(old(db.State()), caller, kindText, now, draws, commitFails)
    ensures db.Valid()
    ensures db.users == old(db.users) && db.attempts == old(db.attempts)
  {
    CreateAccountKeepsInvariants(db.State(), |db.users|, caller, kindText, now, draws, commitFails);
    var kind := ParseAccountType(kindText);
    if kind.None? {
      return CreateRejected(InvalidAccountType);
    }
    var existing := FirstWhere(db.accounts, ActiveOfType(caller, kind.value));
    if existing.Some? {
      return CreateRejected(DuplicateAccountType);
    }
    var number := AccountNumberFor("", NumbersOf(db.accounts), draws);
    if number.None? {
      return CreateRejected(NoFreshNumber);
    }
    var saved := db.accounts;
    db.accounts := db.accounts + [Account(number.value, kind.value, 0.0, true, caller, now)];
    if commitFails {
      db.accounts := saved;
      r := CreateRejected(CreateFailed);
    } else {
      r := Created(|saved|);
    }
  }

  // ---------------------------------------------------------------------
  // transfer
  // ---------------------------------------------------------------------

  /** The transfer form after sanitising: the source account's id (None when
      the field is missing or empty; a non-numeric value behaves as an id no
      account has), the destination number, the amount's exact value (None
      when it does not parse) and the description. */
  datatype TransferForm = TransferForm(fromAccountId: Option<int>, toAccountNumber: string,
                                       amount: Option<real>, description: string)

  datatype FormError = MissingSource | BadDestination | BadAmount

  datatype TransferError =
    | InvalidForm(errors: seq<FormError>)
    | SourceNotFound
    | DestinationNotFound
    | SameAccount
    | InsufficientFunds
    | TransferFailed

  datatype TransferOutcome = Transferred(txn: nat) | TransferRejected(reason: TransferError)

  /** A transfer that passed every check. */
  datatype Plan = Plan(source: AccountId, destination: AccountId, amount: real)

  /** The default description, "transfer to <number>". */
  const TransferPrefix: string := "تحويل إلى "

  /** Every format error of the form, in the order the source collects them. */
  function FormErrors(f: TransferForm): (errors: seq<FormError>)
    ensures MissingSource in errors <==> f.fromAccountId.None?
    ensures BadDestination in errors <==> !Security.ValidateAccountNumber(Some(f.toAccountNumber))
    ensures BadAmount in errors <==> !Security.ValidateAmount(f.amount)
    ensures |errors| <= 3
  {
    (if f.fromAccountId.None? then [MissingSource] else [])
    + (if !Security.ValidateAccountNumber(Some(f.toAccountNumber)) then [BadDestination] else [])
    + (if !Security.ValidateAmount(f.amount) then [BadAmount] else [])
  }

  /** The filter `id = id, user_id = caller, is_active = True`. */
  function FindSource(accounts: seq<Account>, id: int, caller: UserId): (r: Option<AccountId>)
    ensures r.Some? <==> 0 <= id < |accounts| && accounts[id].owner == caller && accounts[id].active
    ensures r.Some? ==> r.value == id
  {
    if 0 <= id < |accounts| && accounts[id].owner == caller && accounts[id].active then Some(id)
    else None
  }

  /** The filter `account_number = number, is_active = True`. */
  function ActiveNumbered(number: string): Account -> bool
  {
    (a: Account) => a.number == number && a.active
  }

  datatype Decision = Proceed(plan: Plan) | Refuse(reason: TransferError)

  /** The checks of `transfer`, in the source's order: the form, the source,
      the destination, distinctness, then the balance. */
  function PlanTransfer(accounts: seq<Account>, caller: UserId, f: TransferForm): Decision
  {
    var errors := FormErrors(f);
    if errors != [] then Refuse(InvalidForm(errors))
    else
      var source := FindSource(accounts, f.fromAccountId.value, caller);
      var destination := FirstWhere(accounts, ActiveNumbered(f.toAccountNumber));
      if source.None? then Refuse(SourceNotFound)
      else if destination.None? then Refuse(DestinationNotFound)
      else if source.value == destination.value then Refuse(SameAccount)
      else if accounts[source.value].balance < f.amount.value then Refuse(InsufficientFunds)
      else Proceed(Plan(source.value, destination.value, f.amount.value))
  }

  /** The balances after moving the planned amount. */
  function Move(accounts: seq<Account>, p: Plan): seq<Account>
    requires p.source < |accounts| && p.destination < |accounts|
  {
    var debited := accounts[p.source := accounts[p.source].(balance := accounts[p.source].balance - p.amount)];
    debited[p.destination := debited[p.destination].(balance := debited[p.destination].balance + p.amount)]
  }

  /** The ledger row of a transfer. */
  function TransferRow(accounts: seq<Account>, p: Plan, caller: UserId, description: string,
                       meta: RequestMeta, now: Time): Txn
    requires p.destination < |accounts|
  {
    Txn(TransferTxn, p.amount,
        if description != [] then description else TransferPrefix + accounts[p.destination].number,
        Some(p.source), Some(p.destination), caller,
        Some(Security.GetClientIp(meta.forwardedFor, meta.remoteAddr)), meta.userAgent, now)
  }

  /** A planned transfer names two different existing accounts, a positive
      amount within the ceiling, and a source that is the caller's, active
      and holds at least the amount. */
  lemma PlanIsSound(accounts: seq<Account>, caller: UserId, f: TransferForm)
    ensures var d := PlanTransfer(accounts, caller, f);
            d.Proceed? ==>
              var p := d.plan;
              && p.source < |accounts| && p.destination < |accounts| && p.source != p.destination
              && 0.0 < p.amount <= 1000000.0 && Some(p.amount) == f.amount
              && accounts[p.source].owner == caller && accounts[p.source].active
              && accounts[p.destination].active
              && accounts[p.destination].number == f.toAccountNumber
              && accounts[p.source].balance >= p.amount
  {
    var errors := FormErrors(f);
    if errors == [] {
      assert BadAmount !in errors;
    }
  }

  /** `transfer`: the whole request as one atomic step. */
  function TransferStep(b: Books, caller: UserId, f: TransferForm, meta: RequestMeta, now: Time,
                        commitFails: bool): (TransferOutcome, Books)
  {
    match PlanTransfer(b.accounts, caller, f)
    case Refuse(reason) => (TransferRejected(reason), b)
    case Proceed(p) =>
      PlanIsSound(b.accounts, caller, f);
      if commitFails then (TransferRejected(TransferFailed), b)
      else (Transferred(|b.ledger|),
            Books(Move(b.accounts, p),
                  b.ledger + [TransferRow(b.accounts, p, caller, f.description, meta, now)]))
  }

  /** Moving an amount between two different accounts lowers the source
      by it, raises the destination by it, leaves every other account as
      it was, and keeps the total of all balances. */
  lemma MoveConservesMoney(accounts: seq<Account>, p: Plan)
    requires p.source < |accounts| && p.destination < |accounts| && p.source != p.destination
    ensures |Move(accounts, p)| == |accounts|
    ensures Move(accounts, p)[p.source] == accounts[p.source].(balance := accounts[p.source].balance - p.amount)
    ensures Move(accounts, p)[p.destination]
              == accounts[p.destination].(balance := accounts[p.destination].balance + p.amount)
    ensures forall i :: 0 <= i < |accounts| && i != p.source && i != p.destination ==>
              Move(accounts, p)[i] == accounts[i]
    ensures TotalBalance(Move(accounts, p)) == TotalBalance(accounts)
  {
    var s, d := p.source, p.destination;
    var debited := accounts[s := accounts[s].(balance := accounts[s].balance - p.amount)];
    var credited := debited[d := debited[d].(balance := debited[d].balance + p.amount)];
    assert Move(accounts, p) == credited;
    assert debited[d] == accounts[d];
    TotalBalanceUpdate(accounts, s, debited[s]);
    TotalBalanceUpdate(debited, d, credited[d]);
  }

  /** Conservation: a committed transfer lowers the source by the amount,
      raises the destination by it, leaves every other account as it was,
      and so keeps both the pair's sum and the total of all balances. */
  lemma TransferConservesMoney(b: Books, caller: UserId, f: TransferForm, meta: RequestMeta,
                               now: Time, commitFails: bool)
    ensures var (r, b') := TransferStep(b, caller, f, meta, now, commitFails);
            r.Transferred? ==>
              var p := PlanTransfer(b.accounts, caller, f).plan;
              && |b'.accounts| == |b.accounts|
              && b'.accounts[p.source].balance == b.accounts[p.source].balance - p.amount
              && b'.accounts[p.destination].balance == b.accounts[p.destination].balance + p.amount
              && b'.accounts[p.source].balance + b'.accounts[p.destination].balance
                   == b.accounts[p.source].balance + b.accounts[p.destination].balance
              && (forall i :: 0 <= i < |b.accounts| && i != p.source && i != p.destination ==>
                    b'.accounts[i] == b.accounts[i])
              && TotalBalance(b'.accounts) == TotalBalance(b.accounts)
  {
    PlanIsSound(b.accounts, caller, f);
    var d := PlanTransfer(b.accounts, caller, f);
    if d.Proceed? && !commitFails {
      MoveConservesMoney(b.accounts, d.plan);
    }
  }

  /** The ledger discipline: exactly one row, of type transfer, is appended
      on success and none on any rejection, including a failed commit,
      which leaves the books exactly as they were. */
  lemma TransferAppendsOneRow(b: Books, caller: UserId, f: TransferForm, meta: RequestMeta,
                              now: Time, commitFails: bool)
    ensures var (r, b') := TransferStep(b, caller, f, meta, now, commitFails);
            && (r.Transferred? ==>
                  var p := PlanTransfer(b.accounts, caller, f).plan;
                  && r.txn == |b.ledger| && |b'.ledger| == |b.ledger| + 1
                  && b'.ledger[..|b.ledger|] == b.ledger
                  && var t := b'.ledger[r.txn];
                     t.kind == TransferTxn && Some(t.amount) == f.amount
                     && t.fromAccount == Some(p.source) && t.toAccount == Some(p.destination)
                     && t.actor == caller
                     && (f.description == [] ==>
                           t.description == TransferPrefix + f.toAccountNumber))
            && (r.TransferRejected? ==> b' == b)
            && (commitFails ==> r.TransferRejected? && b' == b)
  {
    PlanIsSound(b.accounts, caller, f);
  }

  /** The checks run in the source's order, and each rejection carries the
      first failing check: form errors before any lookup; a missing source
      before a missing destination; a same-account request regardless of
      amount and balance; insufficient funds only for two distinct,
      resolved accounts. */
  lemma TransferCheckOrder(accounts: seq<Account>, caller: UserId, f: TransferForm)
    ensures FormErrors(f) != [] ==> PlanTransfer(accounts, caller, f) == Refuse(InvalidForm(FormErrors(f)))
    ensures FormErrors(f) == [] ==>
              var source := FindSource(accounts, f.fromAccountId.value, caller);
              var destination := FirstWhere(accounts, ActiveNumbered(f.toAccountNumber));
              && (source.None? <==> PlanTransfer(accounts, caller, f) == Refuse(SourceNotFound))
              && (source.Some? && destination.None? <==>
                    PlanTransfer(accounts, caller, f) == Refuse(DestinationNotFound))
              && (source.Some? && destination == source <==>
                    PlanTransfer(accounts, caller, f) == Refuse(SameAccount))
              && (PlanTransfer(accounts, caller, f) == Refuse(InsufficientFunds) <==>
                    source.Some? && destination.Some? && source != destination
                    && accounts[source.value].balance < f.amount.value)
  {
  }

  /** Moving exactly the whole balance is allowed and leaves the source at
      zero. */
  lemma WholeBalanceMayBeMoved(b: Books, caller: UserId, f: TransferForm, meta: RequestMeta, now: Time)
    requires FormErrors(f) == []
    requires FindSource(b.accounts, f.fromAccountId.value, caller).Some?
    requires FirstWhere(b.accounts, ActiveNumbered(f.toAccountNumber)).Some?
    requires FirstWhere(b.accounts, ActiveNumbered(f.toAccountNumber)).value != f.fromAccountId.value
    requires Some(b.accounts[f.fromAccountId.value].balance) == f.amount
    ensures TransferStep(b, caller, f, meta, now, false).0.Transferred?
    ensures TransferStep(b, caller, f, meta, now, false).1.accounts[f.fromAccountId.value].balance == 0.0
  {
    TransferConservesMoney(b, caller, f, meta, now, false);
  }

  /** A committed transfer keeps every invariant of the books: no balance
      goes negative, numbers stay unique, and the new row is well formed. */
  lemma TransferKeepsInvariants(b: Books, userCount: nat, caller: UserId, f: TransferForm,
                                meta: RequestMeta, now: Time, commitFails: bool)
    requires BooksValid(b, userCount) && caller < userCount
    ensures BooksValid(TransferStep(b, caller, f, meta, now, commitFails).1, userCount)
  {
    var (r, b') := TransferStep(b, caller, f, meta, now, commitFails);
    if r.Transferred? {
      TransferConservesMoney(b, caller, f, meta, now, commitFails);
      TransferAppendsOneRow(b, caller, f, meta, now, commitFails);
      PlanIsSound(b.accounts, caller, f);
      var p := PlanTransfer(b.accounts, caller, f).plan;
      forall i | 0 <= i < |b'.accounts|
        ensures b'.accounts[i].number == b.accounts[i].number
        ensures b'.accounts[i].owner == b.accounts[i].owner
        ensures b'.accounts[i].balance >= 0.0
      {
      }
      forall k | 0 <= k < |b'.ledger| ensures RowValid(b'.ledger[k], |b'.accounts|, userCount) {
        if k < |b.ledger| {
          assert b'.ledger[k] == b.ledger[k];
        }
      }
    }
  }

  /** The caller's dashboard total after a transfer: unchanged when both
      accounts are the caller's own, lower by the amount when the money goes
      to someone else. */
  lemma TransferMovesDashboardTotal(b: Books, caller: UserId, f: TransferForm, meta: RequestMeta, now: Time)
    requires TransferStep(b, caller, f, meta, now, false).0.Transferred?
    ensures var p := PlanTransfer(b.accounts, caller, f).plan;
            var b' := TransferStep(b, caller, f, meta, now, false).1;
            && (b.accounts[p.destination].owner == caller ==>
                  DashboardTotal(b'.accounts, caller) == DashboardTotal(b.accounts, caller))
            && (b.accounts[p.destination].owner != caller ==>
                  DashboardTotal(b'.accounts, caller) == DashboardTotal(b.accounts, caller) - p.amount)
  {
    PlanIsSound(b.accounts, caller, f);
    var p := PlanTransfer(b.accounts, caller, f).plan;
    MoveDashboardTotal(b.accounts, caller, p);
  }

  /** The caller's total after moving money out of one of the caller's
      active accounts. */
  lemma MoveDashboardTotal(accounts: seq<Account>, caller: UserId, p: Plan)
    requires p.source < |accounts| && p.destination < |accounts| && p.source != p.destination
    requires accounts[p.source].owner == caller && accounts[p.source].active
    ensures accounts[p.destination].owner == caller && accounts[p.destination].active ==>
              DashboardTotal(Move(accounts, p), caller) == DashboardTotal(accounts, caller)
    ensures !(accounts[p.destination].owner == caller && accounts[p.destination].active) ==>
              DashboardTotal(Move(accounts, p), caller) == DashboardTotal(accounts, caller) - p.amount
  {
    var s, d := p.source, p.destination;
    var debited := accounts[s := accounts[s].(balance := accounts[s].balance - p.amount)];
    DashboardTotalUpdate(accounts, caller, s, debited[s]);
    assert DashboardTotal(debited, caller) == DashboardTotal(accounts, caller) - p.amount;
    assert debited[d] == accounts[d];
    DashboardTotalUpdate(debited, caller, d, debited[d].(balance := debited[d].balance + p.amount));
  }

  /** 100.00 and 0.00; moving 40.00 leaves 60.00 and 40.00 and one transfer
      row of 40.00. Moving 10.01 out of 10.00 is refused and changes
      nothing. */
  lemma TransferScenarios(meta: RequestMeta, now: Time)
    ensures var x := Account("1111111111", Checking, 100.0, true, 0, 0);
            var y := Account("2222222222", Checking, 0.0, true, 1, 0);
            var b := Books([x, y], []);
            var (r, b') := TransferStep(b, 0, TransferForm(Some(0), "2222222222", Some(40.0), ""), meta, now, false);
            && r == Transferred(0)
            && b'.accounts[0].balance == 60.0 && b'.accounts[1].balance == 40.0
            && |b'.ledger| == 1 && b'.ledger[0].kind == TransferTxn && b'.ledger[0].amount == 40.0
    ensures var x := Account("1111111111", Checking, 10.0, true, 0, 0);
            var y := Account("2222222222", Checking, 0.0, true, 1, 0);
            var b := Books([x, y], []);
            TransferStep(b, 0, TransferForm(Some(0), "2222222222", Some(10.01), ""), meta, now, false)
              == (TransferRejected(InsufficientFunds), b)
  {
    var x := Account("1111111111", Checking, 100.0, true, 0, 0);
    var y := Account("2222222222", Checking, 0.0, true, 1, 0);
    assert Security.IsAccountNumber("2222222222");
    assert FirstWhere([x, y], ActiveNumbered("2222222222")) == Some(1);
    var x' := Account("1111111111", Checking, 10.0, true, 0, 0);
    assert FirstWhere([x', y], ActiveNumbered("2222222222")) == Some(1);
  }

  /** The debit, the credit and the new ledger row, made in place. */
  method Post(db: Database, p: Plan, row: Txn)
    requires p.source < |db.accounts| && p.destination < |db.accounts|
    modifies db
    ensures db.accounts == Move(old(db.accounts), p)
    ensures db.ledger == old(db.ledger) + [row]
    ensures db.users == old(db.users) && db.attempts == old(db.attempts)
  {
    db.accounts := db.accounts[p.source := db.accounts[p.source].(balance := db.accounts[p.source].balance - p.amount)];
    db.accounts := db.accounts[p.destination :=
                                 db.accounts[p.destination].(balance := db.accounts[p.destination].balance + p.amount)];
    db.ledger := db.ledger + [row];
  }

  /** `transfer` on the database: validate, resolve, debit and credit in
      place, append the row, and roll everything back if the commit fails. */
  method Transfer(db: Database, caller: UserId, f: TransferForm, meta: RequestMeta, now: Time,
                  commitFails: bool) returns (r: TransferOutcome)
    requires db.Valid() && caller < |db.users|
    modifies db
    ensures (r, db.State()) == TransferStep(old(db.State()), caller, f, meta, now, commitFails)
    ensures db.Valid()
    ensures db.users == old(db.users) && db.attempts == old(db.attempts)
  {
    ghost var before := db.State();
    var errors: seq<FormError> := [];
    if f.fromAccountId.None? {
      errors := errors + [MissingSource];
    }
    if !Security.ValidateAccountNumber(Some(f.toAccountNumber)) {
      errors := errors + [BadDestination];
    }
    if !Security.ValidateAmount(f.amount) {
      errors := errors + [BadAmount];
    }
    assert errors == FormErrors(f);
    if errors != [] {
      return TransferRejected(InvalidForm(errors));
    }
    var amount := f.amount.value;
    var source := FindSource(db.accounts, f.fromAccountId.value, caller);
    var destination := FirstWhere(db.accounts, ActiveNumbered(f.toAccountNumber));
    if source.None? {
      return TransferRejected(SourceNotFound);
    }
    if destination.None? {
      return TransferRejected(DestinationNotFound);
    }
    var s, d := source.value, destination.value;
    if s == d {
      return TransferRejected(SameAccount);
    }
    if db.accounts[s].balance < amount {
      return TransferRejected(InsufficientFunds);
    }
    assert PlanTransfer(db.accounts, caller, f) == Proceed(Plan(s, d, amount));
    var savedAccounts, savedLedger := db.accounts, db.ledger;
    var description := if f.description != [] then f.description
                       else TransferPrefix + db.accounts[d].number;
    var row := Txn(TransferTxn, amount, description, Some(s), Some(d), caller,
                   Some(Security.GetClientIp(meta.forwardedFor, meta.remoteAddr)), meta.userAgent, now);
    Post(db, Plan(s, d, amount), row);
    if commitFails {
      db.accounts, db.ledger := savedAccounts, savedLedger;
      r := TransferRejected(TransferFailed);
    } else {
      r := Transferred(|savedLedger|);
    }
    TransferKeepsInvariants(before, |db.users|, caller, f, meta, now, commitFails);
  }
}
