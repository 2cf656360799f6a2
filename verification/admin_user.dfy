/** The administrator account and its lockout state machine: a failed
    password bumps the failure counter and locks the account at the fifth
    failure; a successful login clears both. */
module AdminUsers {
  import opened Seqs

  /** Number of consecutive failures that locks an account. */
  const MaxLoginFailCount: int := 5

  /** An account row. `password` holds the encoder's hash; `legacyRole` is the
      name of the deprecated single-role enum; `roles` lists the ids of the
      assigned roles without duplicates; `lockedAt` is the lock time in
      seconds, absent while unlocked. */
  datatype AdminUser = AdminUser(
    id: nat,
    email: string,
    password: string,
    name: string,
    legacyRole: Option<string>,
    roles: seq<nat>,
    isActive: bool,
    loginFailCount: int,
    lockedAt: Option<int>)
  {
    predicate IsLocked() {
      lockedAt.Some?
    }
  }

  /** A new account as sign-up and the constructor defaults create it. */
  function NewUser(id: nat, email: string, password: string, name: string): (u: AdminUser)
    ensures u.id == id && u.email == email && u.password == password && u.name == name
    ensures u.roles == [] && u.legacyRole.None? && u.isActive
    ensures u.loginFailCount == 0 && !u.IsLocked()
  {
    AdminUser(id, email, password, name, None, [], true, 0, None)
  }

  /** The fields the lockout operations never touch: identity, credentials,
      roles and the active flag. */
  predicate SameAccount(a: AdminUser, b: AdminUser) {
    a.id == b.id && a.email == b.email && a.password == b.password && a.name == b.name
    && a.legacyRole == b.legacyRole && a.roles == b.roles && a.isActive == b.isActive
  }

  /** One more failed password: the counter goes up by one and, once it
      reaches the threshold, the lock time is (re)set to `now`. */
  function IncreaseLoginFailCount(u: AdminUser, now: int): (r: AdminUser)
    ensures r.loginFailCount == u.loginFailCount + 1
    ensures r.IsLocked() <==> u.IsLocked() || r.loginFailCount >= MaxLoginFailCount
    ensures r.loginFailCount >= MaxLoginFailCount ==> r.lockedAt == Some(now)
    ensures r.loginFailCount < MaxLoginFailCount ==> r.lockedAt == u.lockedAt
    ensures SameAccount(r, u)
  {
    var count := u.loginFailCount + 1;
    u.(loginFailCount := count, lockedAt := if count >= MaxLoginFailCount then Some(now) else u.lockedAt)
  }

  /** A successful login: counter back to zero and lock cleared, from any state. */
  function ResetLoginFailCount(u: AdminUser): (r: AdminUser)
    ensures r.loginFailCount == 0 && !r.IsLocked()
    ensures SameAccount(r, u)
  {
    u.(loginFailCount := 0, lockedAt := None)
  }

  /** Resetting twice is resetting once. */
  lemma ResetIsIdempotent(u: AdminUser)
    ensures ResetLoginFailCount(ResetLoginFailCount(u)) == ResetLoginFailCount(u)
  {
  }

  /** A failure never unlocks an account. */
  lemma IncreaseNeverUnlocks(u: AdminUser, now: int)
    requires u.IsLocked()
    ensures IncreaseLoginFailCount(u, now).IsLocked()
  {
  }

  /** `n` failures in a row, all at time `now`. */
  function IncreaseTimes(u: AdminUser, n: nat, now: int): AdminUser
    decreases n
  {
    if n == 0 then u else IncreaseLoginFailCount(IncreaseTimes(u, n - 1, now), now)
  }

  /** From a fresh account (no failures, unlocked), `n` failures leave the
      counter at `n`, and the account is locked exactly when `n` reached the
      threshold: four failures leave it open, the fifth locks it. */
  lemma {:induction false} FailuresFromFreshAccount(u: AdminUser, n: nat, now: int)
    requires u.loginFailCount == 0 && !u.IsLocked()
    ensures IncreaseTimes(u, n, now).loginFailCount == n
    ensures IncreaseTimes(u, n, now).IsLocked() <==> n >= MaxLoginFailCount
    ensures SameAccount(IncreaseTimes(u, n, now), u)
  {
    if n > 0 {
      FailuresFromFreshAccount(u, n - 1, now);
    }
  }

  /** A successful login wipes out any run of failures: the account it leaves
      is the one a reset of the account before the failures gives. */
  lemma {:induction false} ResetUndoesFailures(u: AdminUser, n: nat, now: int)
    ensures ResetLoginFailCount(IncreaseTimes(u, n, now)) == ResetLoginFailCount(u)
  {
    if n > 0 {
      ResetUndoesFailures(u, n - 1, now);
    }
  }

  /** The lockout invariant: the counter is never negative, and a counter at or
      above the threshold means the account is locked. */
  predicate LockoutConsistent(u: AdminUser) {
    u.loginFailCount >= 0 && (u.loginFailCount >= MaxLoginFailCount ==> u.IsLocked())
  }

  /** Both operations keep the lockout invariant, starting from the default
      counter of zero. */
  lemma LockoutOperationsPreserveConsistency(u: AdminUser, now: int)
    requires LockoutConsistent(u)
    ensures LockoutConsistent(IncreaseLoginFailCount(u, now))
    ensures LockoutConsistent(ResetLoginFailCount(u))
  {
  }
}
