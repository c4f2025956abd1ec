# secure-bank-system, modelled in Dafny

This project models the core of a small Flask banking application. A
customer signs up and signs in. The customer can open a checking and a
savings account and transfer money to any active account. An
administrator deposits money, switches users and accounts on and off,
unlocks users, resets passwords and watches failed logins. The model
covers four parts:

- **The ledger** (`dashboard.dfy`, `admin.dfy`). The accounts table and
  the append-only transaction log form `Models.Books`. Opening an account,
  a transfer, the administrative deposit and the account toggle are each
  a pure step function over the books, and the lemmas are proved about
  those functions. Each step also has an imperative method on
  `Models.Database` that updates the tables in place, and the method is
  proved to perform exactly that step. The proved properties are:
  - a transfer conserves the total balance;
  - balances never go negative;
  - account numbers stay unique and well formed;
  - exactly one row is added per success and none per rejection;
  - a failed commit leaves the books as they were.
- **The login lockout** (`models.dfy`, `auth.dfy`). `Models.User` is a
  class whose lockout fields `lock_account`, `unlock_account` and
  `update_last_login` update in place. The lockout rules are stated once,
  on the value `Models.LockState`. The login procedure is the decision
  `Auth.Judge`, its effect `Auth.LockAfter`, and the method `Auth.Login`
  proved to follow them.
- **Registration** (`auth.dfy`). The checks are numbered in the order
  the source runs them (`Auth.Fails`, `Auth.Message`). The method
  collects the failing ones into a list, and a user is inserted exactly
  when that list is empty.
- **The validators and the monitoring figures** (`security.dfy`,
  `text.dfy`, `money.dfy`, `monitoring.dfy`). These are the account-number,
  amount, password-strength and CSRF checks, client-address extraction and
  input sanitising. The monitoring figures are the failed-logins-today
  count, the locked users, the bank's total balance and the suspicious
  client addresses.

The model uses these representations:

- **Money** is an exact `real`. The source's `Decimal` rounds every result to 28 significant digits. Below 10^26 this rounding does not affect amounts in cents.
  `Money.Quantize` is `quantize(Decimal('0.01'))` under the default
  round-half-even context.
- **Tables** are sequences, and a row's id is its position. A query's
  `.first()` is the lowest matching position.
- **Time** is an `int` number of seconds, passed in by the caller.
- **The outside world** enters as parameters:
  - the password hash and its check are functions passed in;
  - the markup cleaner inside `sanitize_input` is a function passed in;
  - the random digits of new account numbers come from a finite sequence
    of draws;
  - the request headers arrive as `Models.RequestMeta`;
  - a failing database commit is a boolean.

## Model

| member | source | states |
|---|---|---|
| Text.StripLeft | utils/security.py:65 | The left half of `str.strip`: the result is a suffix of the input, every character dropped is whitespace, and the result does not start with whitespace. |
| Text.StripRight | utils/security.py:65 | The right half of `str.strip`: the result is a prefix of the input, every character dropped is whitespace, and the result does not end with whitespace. |
| Text.StripTrimsBothEnds | utils/security.py:65 | A stripped string is empty or begins and ends with a non-space character. |
| Text.StripKeepsTrimmed | utils/security.py:65 | Stripping a string that already has non-space ends changes nothing. |
| Text.DecimalDigitsExtendAscii | utils/security.py:97 | `\d` matches every ASCII digit, and also non-ASCII decimal digits such as the Arabic-Indic three. |
| Text.FirstFieldBeforeSeparator | utils/security.py:124 | When the text before the first comma holds no comma, `split(',')[0]` gives exactly that text, whatever follows. |
| Text.FirstField | utils/security.py:124 | `split(',')[0]`: the result is a prefix of the input without the separator, and it stops exactly at the first separator when there is one. |
| Money.Quantize | routes/admin.py:301 | Rounding to cents gives a whole number of cents within half a cent of the input. |
| Money.QuantizeIsNearest | routes/admin.py:301 | No whole-cent amount is closer to the input than the rounded one. |
| Money.QuantizeKeepsCents | routes/admin.py:301 | An amount already in whole cents is unchanged. |
| Money.QuantizeIdempotent | routes/admin.py:301 | Rounding twice equals rounding once. |
| Money.QuantizePositive | routes/admin.py:297-301 | A positive amount never rounds below zero, and it rounds to 0.00 exactly when it is at most half a cent. |
| Money.QuantizeTiesToEven | routes/admin.py:301 | An amount exactly halfway between two cents rounds to one of those two neighbours, and always to the even one. |
| Money.QuantizeOverflowIff | routes/admin.py:301 | The rounded amount reaches 10^26, where its cents need more than 28 digits, exactly when the amount is at least 10^26 - 0.005. |
| Money.QuantizeHalfEven | routes/admin.py:301 | Ties go to the even cent: 0.005 gives 0.00, 0.015 and 0.025 give 0.02, and 12.345 gives 12.34. |
| Security.ValidateAccountNumber | utils/security.py:68-74 | A missing or empty number is rejected, and ten ASCII digits are accepted. |
| Security.ValidateAccountNumberIsPattern | utils/security.py:72-74 | A number is accepted exactly when it is ten digits, optionally followed by one newline, as `^\d{10}$` allows. |
| Security.ValidateAmount | utils/security.py:77-83 | An amount is accepted exactly when it parses and is greater than 0 and at most 1,000,000. |
| Security.ValidatePasswordStrength | utils/security.py:86-103 | A password is strong exactly when it has at least 8 characters, an upper-case letter, a lower-case letter, a Unicode decimal digit and one of `!@#$%^&*`. |
| Security.AnyDecimalDigitCounts | utils/security.py:97-98 | A password whose only digit is an Arabic-Indic three is strong, and the same password with a letter in place of that digit lacks a digit. |
| Security.PasswordVerdictIsFirstFailure | utils/security.py:88-101 | The verdict is that of the first failing requirement in the order length, upper, lower, digit, special; every requirement before it passes. |
| Security.ValidateCsrfToken | utils/security.py:111-118 | A token is valid exactly when it is non-empty, a token is stored, and the two are equal. |
| Security.ClientIpIsFirstHop | utils/security.py:123-124 | For a header "hop, rest" where the hop holds no comma, the address is the stripped hop, whatever the rest holds. |
| Security.GetClientIp | utils/security.py:121-125 | A non-empty X-Forwarded-For header gives its first comma-separated element, trimmed and without a comma. Otherwise the result is REMOTE_ADDR, or 'unknown' when that is absent. |
| Security.SanitizeInput | utils/security.py:55-65 | A missing or empty input comes back unchanged. Anything else comes back as text with non-space ends. |
| Models.FailuresAreCounted | models/user.py:49 | Each failure raises the counter by exactly one, and nothing resets it. |
| Models.FailureLocksAtThreshold | models/user.py:41-51 | Below three failures the lock expiry is untouched. At three or more, the user is locked exactly until 30 minutes after the failure. |
| Models.ExpiredLockRelocks | models/user.py:47-51 | Once the counter has reached three, every further failure sets the lock again immediately, even after the old lock has expired. |
| Models.RepeatedFailuresLock | models/user.py:47-51 | After enough failures, the lock runs until 30 minutes after the last one. |
| Models.ThreeFailuresLockThirtyMinutes | models/user.py:41-51 | Three failures at time t from a clean state leave the counter at 3 and the user locked exactly before t + 30 minutes. |
| Models.ClearedIsNeverLocked | models/user.py:41-56 | The state `unlock_account` leaves is unlocked at every time and has a zero counter. |
| Models.User.constructor | models/user.py:9-31 | A new user has the given profile, role and hash, is active, has no failures and no lock, and has never logged in. |
| Models.User.LockAccount | models/user.py:47-51 | `lock_account` applies one failure to the user's lock state and changes no other field. |
| Models.User.UnlockAccount | models/user.py:53-56 | `unlock_account` resets the counter and clears the lock, and changes no other field. |
| Models.User.UpdateLastLogin | models/user.py:58-60 | `update_last_login` sets the last login to now and changes no other field. |
| Models.User.SetPassword | models/user.py:33-35 | `set_password` stores the new hash and changes no other field. |
| Models.TotalBalanceUpdate | routes/admin.py:38 | Replacing one account changes the total balance by the difference of the two balances. |
| Models.TotalBalanceAppend | routes/admin.py:38 | Adding an account raises the total by its balance. |
| Models.FirstWhere | routes/admin.py:313 | `.first()`: the position found matches, no earlier position matches, and no result means no row matches. |
| Models.BooksValidGrows | routes/auth.py:133-144 | Adding users keeps every account and ledger row well formed. |
| Models.DrawNumber | models/user.py:95 | Ten random digits make a ten-digit account number, digit by digit. |
| Models.FirstUnused | models/user.py:92-97 | A generated number is ten digits and not yet in use. No number means every draw was already taken. |
| Models.GenerateAccountNumber | models/user.py:92-97 | The retry loop returns the first drawn number not yet in use. |
| Models.AccountNumberFor | models/user.py:99-102 | The `Account` constructor keeps a supplied number and generates one only when none is given. |
| Models.GeneratedNumbersValidate | models/user.py:92-97 | Every generated number passes `validate_account_number`. |
| Dashboard.DashboardTotalBounds | routes/dashboard.py:13-24 | The index total lies between 0 and the bank's total balance, and it is 0 when the caller has no active account. |
| Dashboard.DashboardTotalUpdate | routes/dashboard.py:13-24 | Changing one account changes the caller's total by what that account counts before and after: its balance when it is the caller's and active. |
| Dashboard.ParseAccountType | routes/dashboard.py:41-43 | Only 'checking' and 'savings' are account types. |
| Dashboard.CreateAccountEffect | routes/dashboard.py:32-73 | Opening succeeds exactly when the type is valid, the caller has no active account of that type, a fresh number is found and the commit succeeds. Success appends one account owned by the caller, active, of that type, with balance 0.00 and a new ten-digit number. A rejection changes nothing. |
| Dashboard.CreateAccountKeepsInvariants | routes/dashboard.py:46-65 | Opening keeps the books well formed and keeps at most one active account per owner and type. |
| Dashboard.CreateAccount | routes/dashboard.py:32-73 | The method performs exactly the opening step on the database and keeps it valid. |
| Dashboard.FormErrors | routes/dashboard.py:87-101 | Each of the three form errors is reported exactly when its field is invalid. |
| Dashboard.FindSource | routes/dashboard.py:107-111 | The source account is found exactly when that id is an active account of the caller. |
| Dashboard.PlanIsSound | routes/dashboard.py:104-133 | An approved transfer moves a valid amount from an active account of the caller to a different active account with that number, and the source holds at least the amount. |
| Dashboard.MoveConservesMoney | routes/dashboard.py:136-137 | The source falls by the amount, the destination rises by it, every other account is unchanged, and the total balance is conserved. |
| Dashboard.TransferConservesMoney | routes/dashboard.py:136-137 | A successful transfer moves exactly the amount and keeps both the pair's sum and the bank's total. |
| Dashboard.TransferAppendsOneRow | routes/dashboard.py:140-159 | A success appends exactly one transfer row linking the two accounts, with the amount and the caller as actor. An empty description defaults to the transfer prefix plus the number. A rejection or a failed commit leaves the books unchanged. |
| Dashboard.TransferCheckOrder | routes/dashboard.py:98-133 | The checks run in the order form errors, source, destination, same account, balance, and each rejection happens exactly when its check is the first to fail. |
| Dashboard.WholeBalanceMayBeMoved | routes/dashboard.py:131-137 | Transferring exactly the whole balance succeeds and leaves the source at 0. |
| Dashboard.TransferKeepsInvariants | routes/dashboard.py:75-159 | A transfer keeps the books well formed; in particular no balance goes negative. |
| Dashboard.TransferMovesDashboardTotal | routes/dashboard.py:136-137 | After a transfer, the caller's index total is unchanged when the money goes to the caller's own account, and it falls by the amount otherwise. |
| Dashboard.MoveDashboardTotal | routes/dashboard.py:136-137 | The same statement about the balance move alone, for an active destination of the caller versus any other. |
| Dashboard.TransferScenarios | routes/dashboard.py:118-137 | 40 of 100 moves to give 60 and 40 with one row. 10.01 from a balance of 10.00 is refused with the books unchanged. |
| Dashboard.Post | routes/dashboard.py:136-151 | The in-place update debits the source, credits the destination and appends the row. |
| Dashboard.Transfer | routes/dashboard.py:75-159 | The method collects the form errors as the source does, performs exactly the transfer step and keeps the database valid. |
| Admin.UserToggle | routes/admin.py:97-101 | The user called 'admin' is refused and keeps its flag. Every other user's flag is flipped. |
| Admin.UserToggleTwiceRestores | routes/admin.py:97-101 | Toggling a user twice restores the flag. |
| Admin.ToggleUserStatus | routes/admin.py:90-107 | An unknown id is not found. Otherwise the method applies the toggle to that user and changes no other field. |
| Admin.UnlockUser | routes/admin.py:109-119 | An unknown id is not found. Otherwise the user is cleared and unlocked at every time, with the other fields unchanged. |
| Admin.ResetPasswordCheckIsStrength | routes/admin.py:129-137 | A reset is accepted exactly when the password is present and strong. A missing or short one is reported as too short, so the weak-password message never says too short. |
| Admin.ResetUserPassword | routes/admin.py:121-144 | On acceptance the new hash is stored and the user is unlocked. Otherwise nothing changes. An unknown id is not found. |
| Admin.ToggleAccountEffect | routes/admin.py:171-175 | Only the active flag of that account flips, and the total balance is unchanged. Toggling twice restores the books, and validity is kept. |
| Admin.ToggleAccountMovesDashboardTotal | routes/admin.py:174 | Switching an account off removes its balance from the owner's index total, and switching it on adds it. |
| Admin.ReactivationCanDuplicateType | routes/admin.py:174 | The toggle has no guard: reactivating an account can give an owner two active accounts of one type, which opening an account refuses. |
| Admin.ToggleAccountStatus | routes/admin.py:168-180 | The method performs exactly the toggle step and keeps the database valid. |
| Admin.CheckDepositAcceptsIff | routes/admin.py:285-307 | A deposit request is accepted exactly when the user exists, the amount parses, is positive and is below 10^26 - 0.005, and the stripped description is non-empty and at most 255 characters. The amount is checked before rounding to cents, and an accepted amount is the rounded one. From 10^26 - 0.005 on, the rounding raises and the request fails. |
| Admin.OverflowingDepositChangesNothing | routes/admin.py:297-301 | A deposit whose rounding exceeds the 28-digit decimal context fails before anything is written, so the books stay as they were. |
| Admin.ApplyDepositSucceedsIff | routes/admin.py:310-354 | The deposit succeeds exactly when the user has an active account or a fresh number is found, and the commit succeeds. A failure leaves the books unchanged. |
| Admin.ApplyDepositCreditsAmount | routes/admin.py:325-338 | A success raises the total balance by the amount and appends one deposit row with no source, the admin as actor and the deposit prefix on the description. |
| Admin.ApplyDepositTarget | routes/admin.py:313-325 | The money goes to the user's first active account. If there is none, it goes to a new active checking account with a fresh number, and that row names no target account. |
| Admin.CreditKeepsAccountsValid | routes/admin.py:325 | Crediting a non-negative amount keeps the accounts well formed. |
| Admin.OpenKeepsAccountsValid | routes/admin.py:316-322 | Adding an account with an unused, well-formed number keeps the accounts well formed. |
| Admin.AppendKeepsRowsValid | routes/admin.py:329-338 | Appending a well-formed row keeps the ledger well formed. |
| Admin.ApplyDepositKeepsInvariants | routes/admin.py:310-347 | The deposit step keeps the books well formed. |
| Admin.DepositKeepsInvariants | routes/admin.py:280-354 | The whole request, checks included, keeps the books well formed. |
| Admin.SubCentDepositIsRecordedAsZero | routes/admin.py:297-301 | A positive amount under half a cent passes the positivity check, is rounded to 0.00, and is recorded as a deposit of 0.00 that leaves the total unchanged. |
| Admin.Credit | routes/admin.py:325-339 | The in-place update credits one account and appends the row. |
| Admin.AddBalance | routes/admin.py:280-354 | The method performs exactly the deposit request on the database and keeps it valid. This includes the failure when rounding overflows. |
| Admin.CreditTarget | routes/admin.py:310-354 | The method's part after the checks is exactly the deposit step. |
| Monitoring.FailedLoginsAppend | routes/admin.py:28-31 | Logging an attempt raises today's failure count by one exactly when it is a failure made today. |
| Monitoring.FailedLoginsBounds | routes/admin.py:28-31 | The count is at most the number of attempts, does not grow as the window starts later, and is 0 when nothing failed in the window. |
| Monitoring.LockedUsers | routes/admin.py:213 | The list holds exactly the users whose lock has not expired. |
| Monitoring.LockedUserCountCounts | routes/admin.py:33-35 | The overview's locked count is the number of users locked now. |
| Monitoring.TotalBalanceNonNegative | routes/admin.py:38 | The bank's total balance is never negative and is 0 for no accounts. |
| Monitoring.GroupFailuresCounts | routes/admin.py:216-224 | Grouping by address yields exactly the addresses with a recent failure, each with its number of failures. |
| Monitoring.SuspiciousIpsAreFrequentFailures | routes/admin.py:216-224 | An address is reported exactly when it has five or more failures in the last 24 hours, and it is reported with that number. |
| Monitoring.OnlyRecentFailuresCount | routes/admin.py:218-221 | A success or an older failure changes no address's count or status. |
| Auth.FindUser | routes/auth.py:32 | The lookup finds the first user with that username, and no result means no user has it. |
| Auth.AuthenticatedIff | routes/auth.py:23-67 | A login succeeds exactly when both fields are filled in, the user exists, is active and not locked, and the password matches. The empty-field rejection happens exactly when a field is empty. |
| Auth.LockedRejectsEvenTheRightPassword | routes/auth.py:42-48 | A locked active user is refused whatever the password, and the lock state is untouched. |
| Auth.UnknownOrInactiveChangesNothing | routes/auth.py:42-77 | An unknown or inactive username is refused and touches no lock state. |
| Auth.AttemptRecordsSuccess | routes/auth.py:35-57 | The logged attempt records success exactly on the password-match path. |
| Auth.ThreeWrongPasswordsLockOut | routes/auth.py:42-71 | Three wrong passwords lock the user for 30 minutes, so even the right password is refused until then. From then on it is accepted and clears the counter. |
| Auth.NextRedirectIsPrefixCheck | routes/auth.py:64-67 | `next` is followed exactly when it starts with '/'. So '//evil.example', which leaves the site, is followed too, and 'https://evil.example' is not. |
| Auth.Answer | routes/auth.py:42-71 | For a found active user, the method gives the decision's verdict and applies its effect on the lock state and last login. |
| Auth.LogAttempt | routes/auth.py:76-77 | The attempts table grows by that one row, and nothing else changes. |
| Auth.Decide | routes/auth.py:32-73 | The verdict for filled-in credentials, with its effect on the user found. |
| Auth.Login | routes/auth.py:12-80 | The verdict is the decision's. Exactly one attempt is logged unless a field was empty. The found user's lock follows the decision, and last login is set only on success. The other tables are unchanged. |
| Auth.MatchesUsernamePattern | routes/auth.py:104-105 | The test accepts exactly the strings matching `^[a-zA-Z0-9_]+$`. |
| Auth.EmailPatternIsParts | routes/auth.py:107-108 | Every `local@domain.suffix` with non-empty parts free of '@' matches the e-mail pattern. |
| Auth.EmailPatternHasOneAt | routes/auth.py:107-108 | A matching address holds exactly one '@', neither first nor last. |
| Auth.ErrorsAfterCollects | routes/auth.py:98-126 | A message is collected exactly when a check carrying it fails, and nothing is collected exactly when every check passes. |
| Auth.ReportedIff | routes/auth.py:98-126 | A message carried by one check only is reported exactly when that check fails. |
| Auth.RegistrationAcceptedIff | routes/auth.py:98-131 | The form has no errors exactly when every check passes: username, e-mail, full name, matching strong password, and unused username and e-mail. |
| Auth.RegistrationErrorsIff | routes/auth.py:101-126 | Each message is reported exactly when its own check fails. |
| Auth.WeakPasswordIsReported | routes/auth.py:117-119 | A weak-password message is reported exactly when the password is not strong, and it carries the strength check's verdict. |
| Auth.EmptyUsernameFailsTwice | routes/auth.py:101-105 | An empty username is reported as too short and as having wrong characters, ahead of every other message. |
| Auth.ErrorsAfterPrefix | routes/auth.py:98-126 | Later checks only append to the list. |
| Auth.SanitizedSignUp | routes/auth.py:90-95 | Every field but the two passwords is sanitised. An empty username stays empty, and a sanitised username has non-space ends. |
| Auth.CollectErrors | routes/auth.py:98-126 | Running the checks one by one collects exactly the form's errors. |
| Auth.UniqueLoginsAppend | routes/auth.py:122-144 | Inserting a user whose username and e-mail are unused keeps both unique. |
| Auth.AcceptedMeansUnused | routes/auth.py:122-130 | A form that produced no errors names a username and an e-mail that no user has. |
| Auth.InsertUser | routes/auth.py:133-144 | Adding a user with an unused username and e-mail appends it to the users table, keeps the database valid and leaves every other table as it was. |
| Auth.Register | routes/auth.py:82-154 | A user is inserted exactly when there are no errors and the commit succeeds. The new user has the role 'user', the hashed password, no failures and no lock. The database stays valid and nothing else changes. |

## Left out

- Flask and SQLAlchemy plumbing is left out: routing, templates, flash messages, redirects, JSON responses, sessions and pagination. Each request returns an outcome datatype instead.
- The decorators (login required, admin required) and the CSRF middleware are left out. Where the caller's identity matters it is a method precondition: the caller exists, and the depositor is an administrator.
- app.py, config.py and utils/decorators.py are not part of this model.
- Password hashing (pbkdf2), the Fernet encryption helpers and sha256 hashing are left out. Checking and hashing are function parameters.
- The markup cleaning of `sanitize_input` is done by a foreign library, so it is a function parameter `clean`. `create_account` and `transfer` take their text fields after `sanitize_input`.
- Parsing of amount text is left out. Amounts arrive parsed, with `None` for text that does not parse.
- `validate_amount` parses with `float`, while `transfer` uses `Decimal`. The model treats both as the exact value. NaN, infinities and rounding near 1,000,000 are not modelled.
- Numeric(15, 2) storage is not modelled: neither rounding on store nor overflow of 15 digits. Balances are exact and unbounded. A transfer amount with more than two decimals is used as given, as in the code.
- Security.ValidateAccountNumber: `\d` in the account-number pattern is modelled as ASCII digits only. Ten non-ASCII decimal digits pass the code's check but not the model's; no account ever has such a number.
- A `from_account_id` that is not an integer is modelled as an id no account has.
- The 255-character column limits are not modelled. A deposit description of up to 255 characters passes the code's check, which runs before the prefix is added, and the model stores the prefixed text in full.
- Randomness: `secrets.randbelow` is replaced by a finite sequence of draws. When every draw is taken the code loops forever; the model rejects with `NoFreshNumber`.
- The clock is a parameter: `now`, and the start of the current day for the failed-logins-today count.
- Commit failures are modelled where the code catches them (`create_account`, `transfer`, `add_balance`, `register`). In the toggles, unlock, reset and login the code does not catch them, and they are not modelled.
- Concurrency is not modelled: requests are sequential and atomic, and nothing is claimed about concurrent transfers.
- In `add_balance` the deposit row's target for a freshly created account is `None`, because the id is read before any flush assigns one. Admin.ApplyDepositTarget states this as the code has it.
- Admin.AddBalance: the new balance `account.balance + amount_dec` is rounded to 28 significant digits in the code. The model adds exactly. The two differ only once the sum reaches 10^26, far past the Numeric(15, 2) column. The same holds for the balance updates of `transfer`.
- The rest of the administrator's overview is not modelled: the plain counts of users, accounts, transactions and active users, and the recent-activity lists. Reports, listing and search pages, user and account detail pages, logout and the system log page are also left out.
- The failed-login list on the security page (the last 50 failures) is left out as a plain ordered query; the locked-users list and the suspicious-address report are modelled.
- The `login` and `register` pages do nothing on GET or for a signed-in user. The model covers the POST path only.
