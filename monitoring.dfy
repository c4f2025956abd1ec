/**
 * The read-only figures of the administrator's overview and security
 * pages: failed logins since the start of the day, the locked users and
 * their count, the bank's total balance, and the client addresses with
 * five or more failed logins in the last 24 hours.
 */
module Monitoring {
  import opened Models

  /** The look-back window of the suspicious-address report: 24 hours. */
  const Day: int := 24 * 60 * 60

  /** The number of recent failures that makes an address suspicious. */
  const SuspiciousThreshold: nat := 5

  // ---------------------------------------------------------------------
  // Failed logins today
  // ---------------------------------------------------------------------

  /** An attempt the failure counters look at: unsuccessful and made at or
      after `since`. */
  predicate IsFailureSince(a: LoginAttempt, since: Time)
  {
    !a.success && a.attemptedAt >= since
  }

  /** The number of failed attempts made at or after `since`; the overview
      passes the start of the current day. */
  function FailedLoginsSince(attempts: seq<LoginAttempt>, since: Time): nat
  {
    if attempts == [] then 0
    else FailedLoginsSince(attempts[..|attempts| - 1], since)
         + (if IsFailureSince(attempts[|attempts| - 1], since) then 1 else 0)
  }

  /** Logging one more attempt raises the count by one exactly when that
      attempt is a failure within the window. */
  lemma FailedLoginsAppend(attempts: seq<LoginAttempt>, a: LoginAttempt, since: Time)
    ensures FailedLoginsSince(attempts + [a], since)
              == FailedLoginsSince(attempts, since) + (if IsFailureSince(a, since) then 1 else 0)
  {
    assert (attempts + [a])[..|attempts|] == attempts;
  }

  /** The count never exceeds the number of attempts, is zero when no
      attempt fails in the window, and shrinks as the window starts later. */
  lemma {:induction false} FailedLoginsBounds(attempts: seq<LoginAttempt>, since: Time, later: Time)
    requires since <= later
    ensures FailedLoginsSince(attempts, later) <= FailedLoginsSince(attempts, since) <= |attempts|
    ensures (forall i :: 0 <= i < |attempts| ==> !IsFailureSince(attempts[i], since)) ==>
              FailedLoginsSince(attempts, since) == 0
  {
    if attempts != [] {
      var n := |attempts|;
      FailedLoginsBounds(attempts[..n - 1], since, later);
      assert forall i :: 0 <= i < n - 1 ==> attempts[..n - 1][i] == attempts[i];
    }
  }

  // ---------------------------------------------------------------------
  // Locked users
  // ---------------------------------------------------------------------

  /** The users whose lock has not yet expired at `now`, in table order. */
  function LockedUsers(users: seq<User>, now: Time): (locked: seq<User>)
    reads set u | u in users
    ensures |locked| <= |users|
    ensures forall i :: 0 <= i < |locked| ==> locked[i] in users && locked[i].IsAccountLocked(now)
    ensures forall i :: 0 <= i < |users| && users[i].IsAccountLocked(now) ==> users[i] in locked
  {
    if users == [] then []
    else
      var rest := LockedUsers(users[..|users| - 1], now);
      var last := users[|users| - 1];
      assert forall i :: 0 <= i < |users| - 1 ==> users[..|users| - 1][i] == users[i];
      if last.IsAccountLocked(now) then rest + [last] else rest
  }

  /** The number of locked users on the overview. */
  function LockedUserCount(users: seq<User>, now: Time): nat
    reads set u | u in users
  {
    |LockedUsers(users, now)|
  }

  /** The users locked at `now`, by position. */
  function LockedPositions(users: seq<User>, now: Time): set<nat>
    reads set u | u in users
  {
    set i: nat | i < |users| && users[i].IsAccountLocked(now)
  }

  /** The count is the number of positions holding a user locked at `now`;
      it is zero when no lock is running. */
  lemma {:induction false} LockedUserCountCounts(users: seq<User>, now: Time)
    ensures LockedUserCount(users, now) == |LockedPositions(users, now)|
    ensures (forall i :: 0 <= i < |users| ==> !users[i].IsAccountLocked(now)) ==> LockedUserCount(users, now) == 0
  {
    if users != [] {
      var n := |users|;
      var prefix := users[..n - 1];
      LockedUserCountCounts(prefix, now);
      var before := LockedPositions(prefix, now);
      var after := LockedPositions(users, now);
      assert forall i :: 0 <= i < n - 1 ==> prefix[i] == users[i];
      assert n - 1 !in before;
      if users[n - 1].IsAccountLocked(now) {
        assert after == before + {n - 1};
      } else {
        assert after == before;
      }
    }
  }

  // ---------------------------------------------------------------------
  // The bank's total balance
  // ---------------------------------------------------------------------

  /** The overview's total balance is the sum over every account, active or
      not (an empty table sums to 0); it is never negative. */
  lemma {:induction false} TotalBalanceNonNegative(accounts: seq<Account>)
    requires forall i :: 0 <= i < |accounts| ==> accounts[i].balance >= 0.0
    ensures TotalBalance(accounts) >= 0.0
    ensures accounts == [] ==> TotalBalance(accounts) == 0.0
  {
    if accounts != [] {
      var n := |accounts|;
      assert forall i :: 0 <= i < n - 1 ==> accounts[..n - 1][i] == accounts[i];
      TotalBalanceNonNegative(accounts[..n - 1]);
    }
  }

  // ---------------------------------------------------------------------
  // Suspicious addresses
  // ---------------------------------------------------------------------

  /** The number of failures from `ip` at or after `since`. */
  function FailuresFrom(attempts: seq<LoginAttempt>, ip: string, since: Time): nat
  {
    if attempts == [] then 0
    else
      var last := attempts[|attempts| - 1];
      FailuresFrom(attempts[..|attempts| - 1], ip, since)
        + (if last.ipAddress == ip && IsFailureSince(last, since) then 1 else 0)
  }

  /** The failures at or after `since`, grouped by address: the
      `GROUP BY ip_address` of the report. */
  function GroupFailures(attempts: seq<LoginAttempt>, since: Time): map<string, nat>
  {
    if attempts == [] then map[]
    else
      var groups := GroupFailures(attempts[..|attempts| - 1], since);
      var last := attempts[|attempts| - 1];
      if IsFailureSince(last, since) then
        groups[last.ipAddress := (if last.ipAddress in groups then groups[last.ipAddress] else 0) + 1]
      else groups
  }

  /** The grouping holds exactly the addresses with a failure in the window,
      each with its number of failures. */
  lemma {:induction false} GroupFailuresCounts(attempts: seq<LoginAttempt>, since: Time, ip: string)
    ensures ip in GroupFailures(attempts, since) <==> FailuresFrom(attempts, ip, since) > 0
    ensures ip in GroupFailures(attempts, since) ==>
              GroupFailures(attempts, since)[ip] == FailuresFrom(attempts, ip, since)
  {
    if attempts != [] {
      GroupFailuresCounts(attempts[..|attempts| - 1], since, ip);
    }
  }

  /** The suspicious addresses at `now` with their counts: the groups of
      failures in the last 24 hours with at least five members. */
  function SuspiciousIps(attempts: seq<LoginAttempt>, now: Time): map<string, nat>
  {
    var groups := GroupFailures(attempts, now - Day);
    map ip | ip in groups && groups[ip] >= SuspiciousThreshold :: groups[ip]
  }

  /** An address is reported exactly when it has five or more failures in
      the last 24 hours, and it is reported with that number. */
  lemma SuspiciousIpsAreFrequentFailures(attempts: seq<LoginAttempt>, now: Time, ip: string)
    ensures ip in SuspiciousIps(attempts, now) <==> FailuresFrom(attempts, ip, now - Day) >= SuspiciousThreshold
    ensures ip in SuspiciousIps(attempts, now) ==>
              SuspiciousIps(attempts, now)[ip] == FailuresFrom(attempts, ip, now - Day)
  {
    GroupFailuresCounts(attempts, now - Day, ip);
  }

  /** Successful attempts and failures older than 24 hours never make an
      address suspicious: logging one changes no count. */
  lemma {:induction false} OnlyRecentFailuresCount(attempts: seq<LoginAttempt>, a: LoginAttempt, now: Time, ip: string)
    requires !IsFailureSince(a, now - Day)
    ensures FailuresFrom(attempts + [a], ip, now - Day) == FailuresFrom(attempts, ip, now - Day)
    ensures (ip in SuspiciousIps(attempts + [a], now)) == (ip in SuspiciousIps(attempts, now))
  {
    assert (attempts + [a])[..|attempts|] == attempts;
    SuspiciousIpsAreFrequentFailures(attempts + [a], now, ip);
    SuspiciousIpsAreFrequentFailures(attempts, now, ip);
  }
}
