/** The authentication service: sign-up, login with lockout, refresh-token
    rotation, logout and the caller's own profile. The clock, the password
    encoder and the token provider are the fields of an `Env`. */
module AuthService {
  import opened Seqs
  import opened Strings
  import opened Errors
  import opened AdminUsers
  import opened Roles
  import opened Permissions
  import opened RefreshTokens
  import opened Menus
  import opened MenuService
  import opened Store
  import opened UserDetails

  const EmailAlreadyInUse: string := "이미 사용 중인 이메일입니다."
  const InvalidCredentials: string := "이메일 또는 비밀번호가 올바르지 않습니다."
  const InvalidRefreshToken: string := "유효하지 않은 Refresh Token입니다."
  const ExpiredRefreshToken: string := "만료된 Refresh Token입니다. 다시 로그인해주세요."
  const UserNotFound: string := "사용자를 찾을 수 없습니다."
  const InactiveAccount: string := "비활성화된 계정입니다."
  const LockedAccount: string := "계정이 잠겨있습니다. 관리자에게 문의하세요."

  /** What a token is minted from: the user id (the subject), the email and
      the role codes. */
  datatype Claims = Claims(subject: nat, email: string, roles: seq<string>)

  /** The primitives of one call: the clock in whole seconds, the configured
      refresh lifetime in milliseconds, the password encoder and matcher, and
      the access/refresh token generators at this instant. */
  datatype Env = Env(
    now: int,
    refreshExpirationMs: int,
    encode: string -> string,
    matches: (string, string) -> bool,
    accessToken: Claims -> string,
    refreshToken: Claims -> string)

  datatype TokenPair = TokenPair(accessToken: string, refreshToken: string, tokenType: string)

  datatype SignUpRequest = SignUpRequest(name: string, email: string, password: string)
  datatype LoginRequest = LoginRequest(email: string, password: string)

  datatype AdminUserResponse = AdminUserResponse(
    id: nat, email: string, name: string, roles: seq<RoleSummary>, isActive: bool)

  datatype MyInfo = MyInfo(
    id: nat,
    email: string,
    name: string,
    roles: seq<RoleSummary>,
    permissions: seq<string>,
    menus: seq<MenuView>)

  /** Kotlin's `Long` division, which truncates toward zero. */
  function TruncDiv(a: int, b: int): (q: int)
    requires b > 0
    ensures a >= 0 ==> q >= 0 && q * b <= a < q * b + b
    ensures a < 0 ==> q <= 0 && q * b - b < a <= q * b
  {
    if a >= 0 then a / b else -((-a) / b)
  }

  /** The expiry stored with a new refresh token: `now` plus the lifetime in
      whole seconds. */
  function ExpiresAt(env: Env): int {
    env.now + TruncDiv(env.refreshExpirationMs, 1000)
  }

  /** The claims minted for an account: its id, email and role codes. */
  function ClaimsOf(db: Db, u: AdminUser): (c: Claims)
    ensures c.subject == u.id && c.email == u.email
    ensures c.roles == RoleCodes(LoadRoles(db, u))
  {
    Claims(u.id, u.email, RoleCodes(LoadRoles(db, u)))
  }

  /** Every table other than the refresh tokens is as in `b`. */
  predicate SameExceptTokens(a: Db, b: Db) {
    a.users == b.users && a.roles == b.roles && a.permissions == b.permissions && a.menuTree == b.menuTree
  }

  /** `issueTokens`: mint both tokens, drop every stored refresh token of the
      user and store the new one. */
  function IssueTokens(db: Db, env: Env, u: AdminUser): (s: Step<Db, TokenPair>)
    ensures s.result.Ok? && SameExceptTokens(s.state, db)
    ensures s.result.value == TokenPair(env.accessToken(ClaimsOf(db, u)), env.refreshToken(ClaimsOf(db, u)), "Bearer")
    ensures CountFor(s.state.refreshTokens, u.id) == 1
    ensures RefreshToken(u.id, s.result.value.refreshToken, ExpiresAt(env)) in s.state.refreshTokens
    ensures forall other :: other != u.id ==> CountFor(s.state.refreshTokens, other) == CountFor(db.refreshTokens, other)
    ensures forall t :: t in s.state.refreshTokens ==> t in db.refreshTokens || t.adminUserId == u.id
  {
    var claims := ClaimsOf(db, u);
    var access := env.accessToken(claims);
    var refresh := env.refreshToken(claims);
    var kept := DeleteByUser(db.refreshTokens, u.id);
    var row := RefreshToken(u.id, refresh, ExpiresAt(env));
    CountAppend(kept, [row], u.id);
    assert CountFor([row], u.id) == 1 by { assert [row][1..] == []; }
    forall other | other != u.id
      ensures CountFor(kept + [row], other) == CountFor(db.refreshTokens, other)
    {
      CountAppend(kept, [row], other);
      assert CountFor([row], other) == 0 by { assert [row][1..] == []; }
      DeleteByUserKeepsOthers(db.refreshTokens, u.id, other);
    }
    Step(db.(refreshTokens := kept + [row]), Ok(TokenPair(access, refresh, "Bearer")))
  }

  // ---------------------------------------------------------------------
  // Sign-up

  /** `signUp`: a taken email is a conflict; otherwise one new account with
      the encoded password and the constructor defaults. */
  function SignUp(db: Db, env: Env, req: SignUpRequest): (s: Step<Db, AdminUserResponse>)
    ensures s.result.Err? <==> exists u :: u in db.users && u.email == req.email
    ensures s.result.Err? ==> s.state == db && s.result.error == DuplicateException(EmailAlreadyInUse)
    ensures s.result.Ok? ==> s.state == db.(users := s.state.users)
    ensures s.result.Ok? ==> |s.state.users| == |db.users| + 1 && s.state.users[..|db.users|] == db.users
  {
    if FindUserByEmail(db.users, req.email).Some? then
      Step(db, Err(DuplicateException(EmailAlreadyInUse)))
    else
      var u := NewUser(FreshId(UserIds(db.users)), req.email, env.encode(req.password), req.name);
      Step(db.(users := db.users + [u]),
        Ok(AdminUserResponse(u.id, u.email, u.name, [], u.isActive)))
  }

  /** The account sign-up adds: the request's email and name, the encoded
      password, a fresh id, no roles, active, no failures and unlocked; the
      response describes it. */
  lemma SignUpCreatesFreshAccount(db: Db, env: Env, req: SignUpRequest)
    requires SignUp(db, env, req).result.Ok?
    ensures var s := SignUp(db, env, req); var u := s.state.users[|db.users|];
      && u.email == req.email && u.name == req.name && u.password == env.encode(req.password)
      && u.roles == [] && u.legacyRole.None? && u.isActive && u.loginFailCount == 0 && !u.IsLocked()
      && (forall v :: v in db.users ==> v.id != u.id)
      && s.result.value == AdminUserResponse(u.id, u.email, u.name, [], true)
  {
    var ids := UserIds(db.users);
    forall v | v in db.users
      ensures v.id < FreshId(ids)
    {
      var i :| 0 <= i < |db.users| && db.users[i] == v;
      assert ids[i] == v.id;
    }
  }

  /** Sign-up keeps emails unique. */
  lemma SignUpKeepsEmailsUnique(db: Db, env: Env, req: SignUpRequest)
    requires UniqueEmails(db.users)
    ensures UniqueEmails(SignUp(db, env, req).state.users)
  {
  }

  // ---------------------------------------------------------------------
  // Login

  /** `validateUserState`: an inactive account is refused first, then a
      locked one. */
  function ValidateUserState(u: AdminUser): (r: Option<BusinessException>)
    ensures r.None? <==> u.isActive && !u.IsLocked()
    ensures !u.isActive ==> r == Some(ValidationException(InactiveAccount))
    ensures u.isActive && u.IsLocked() ==> r == Some(ValidationException(LockedAccount))
  {
    if !u.isActive then Some(ValidationException(InactiveAccount))
    else if u.IsLocked() then Some(ValidationException(LockedAccount))
    else None
  }

  /** The security principal admits exactly the accounts the login's state
      check lets through: enabled and not locked means active and unlocked. */
  lemma PrincipalFlagsMatchLoginCheck(p: Principal)
    ensures IsEnabled(p) && IsAccountNonLocked(p) <==> ValidateUserState(p.user).None?
    ensures !IsEnabled(p) ==> ValidateUserState(p.user) == Some(ValidationException(InactiveAccount))
  {
  }

  /** `login`: unknown email, then account state, then password; a wrong
      password records one more failure; a right one clears the failures and
      issues tokens. The recorded failure is kept although the method then
      throws, which is what the lockout needs; `LoginAsWritten` below is the
      method with its transaction rolled back. */
  function Login(db: Db, env: Env, req: LoginRequest): (s: Step<Db, TokenPair>)
    ensures s.result.Err? ==> s.state.refreshTokens == db.refreshTokens
    ensures s.state.roles == db.roles && s.state.permissions == db.permissions && s.state.menuTree == db.menuTree
    ensures |s.state.users| == |db.users|
  {
    match FindUserByEmail(db.users, req.email)
    case None => Step(db, Err(UnauthorizedException(InvalidCredentials)))
    case Some(k) =>
      var u := db.users[k];
      match ValidateUserState(u)
      case Some(e) => Step(db, Err(e))
      case None =>
        if !env.matches(req.password, u.password) then
          Step(db.(users := db.users[k := IncreaseLoginFailCount(u, env.now)]), Err(UnauthorizedException(InvalidCredentials)))
        else
          var reset := ResetLoginFailCount(u);
          IssueTokens(db.(users := db.users[k := reset]), env, reset)
  }

  /** An unknown email and a wrong password are indistinguishable to the
      caller: the same exception kind with the same message. */
  lemma UnknownEmailLooksLikeWrongPassword(db1: Db, db2: Db, env: Env, req1: LoginRequest, req2: LoginRequest, k: nat)
    requires forall u :: u in db1.users ==> u.email != req1.email
    requires FindUserByEmail(db2.users, req2.email) == Some(k)
    requires db2.users[k].isActive && !db2.users[k].IsLocked()
    requires !env.matches(req2.password, db2.users[k].password)
    ensures Login(db1, env, req1).result == Login(db2, env, req2).result == Err(UnauthorizedException(InvalidCredentials))
  {
  }

  /** The order of the checks: an inactive account is refused with the
      inactive message whatever its lock state and password, an active locked
      one with the locked message whatever its password, and neither refusal
      changes any state. */
  lemma LoginRefusalOrder(db: Db, env: Env, req: LoginRequest, k: nat)
    requires FindUserByEmail(db.users, req.email) == Some(k)
    ensures !db.users[k].isActive ==> Login(db, env, req) == Step(db, Err(ValidationException(InactiveAccount)))
    ensures db.users[k].isActive && db.users[k].IsLocked() ==>
      Login(db, env, req) == Step(db, Err(ValidationException(LockedAccount)))
  {
  }

  /** A wrong password on an active, unlocked account applies exactly one
      failure to that account and nothing else: no token is issued. */
  lemma WrongPasswordCountsOneFailure(db: Db, env: Env, req: LoginRequest, k: nat)
    requires FindUserByEmail(db.users, req.email) == Some(k)
    requires db.users[k].isActive && !db.users[k].IsLocked()
    requires !env.matches(req.password, db.users[k].password)
    ensures Login(db, env, req) ==
      Step(db.(users := db.users[k := IncreaseLoginFailCount(db.users[k], env.now)]), Err(UnauthorizedException(InvalidCredentials)))
  {
  }

  /** A login succeeds only for a known, active, unlocked account with the
      right password; success clears the account's failures and lock, leaves
      the user with exactly one refresh token, the one returned, and leaves
      every other user's tokens alone. */
  lemma LoginSuccess(db: Db, env: Env, req: LoginRequest, k: nat)
    requires FindUserByEmail(db.users, req.email) == Some(k)
    requires Login(db, env, req).result.Ok?
    ensures db.users[k].isActive && !db.users[k].IsLocked() && env.matches(req.password, db.users[k].password)
    ensures var s := Login(db, env, req); var id := db.users[k].id;
      && s.state.users == db.users[k := ResetLoginFailCount(db.users[k])]
      && CountFor(s.state.refreshTokens, id) == 1
      && RefreshToken(id, s.result.value.refreshToken, ExpiresAt(env)) in s.state.refreshTokens
      && (forall other :: other != id ==> CountFor(s.state.refreshTokens, other) == CountFor(db.refreshTokens, other))
  {
    assert ResetLoginFailCount(db.users[k]).id == db.users[k].id;
  }

  /** An unknown email never logs in. */
  lemma LoginNeedsKnownEmail(db: Db, env: Env, req: LoginRequest)
    requires Login(db, env, req).result.Ok?
    ensures exists u :: u in db.users && u.email == req.email
  {
    var k := FindUserByEmail(db.users, req.email).value;
    assert db.users[k] in db.users;
  }

  /** Replacing an account by one with the same email keeps it the first
      match for that email. */
  lemma FindByEmailAfterUpdate(users: seq<AdminUser>, email: string, k: nat, u: AdminUser)
    requires FindUserByEmail(users, email) == Some(k)
    requires u.email == email
    ensures FindUserByEmail(users[k := u], email) == Some(k)
  {
    var updated := users[k := u];
    assert updated[k].email == email;
    assert forall j :: 0 <= j < k ==> updated[j] == users[j];
  }

  /** Fewer than five failures leave a fresh account open, with its email,
      password and active flag. */
  lemma OpenAfterFewFailures(u: AdminUser, n: nat, now: int)
    requires u.loginFailCount == 0 && !u.IsLocked()
    requires n < MaxLoginFailCount
    ensures var v := IncreaseTimes(u, n, now);
      !v.IsLocked() && v.isActive == u.isActive && v.email == u.email && v.password == u.password
  {
    FailuresFromFreshAccount(u, n, now);
  }

  /** `n` login attempts with the same request. */
  function LoginTimes(db: Db, env: Env, req: LoginRequest, n: nat): Db
    decreases n
  {
    if n == 0 then db else Login(LoginTimes(db, env, req, n - 1), env, req).state
  }

  lemma NoAttempts(db: Db, env: Env, req: LoginRequest, k: nat)
    requires k < |db.users|
    ensures LoginTimes(db, env, req, 0) == db.(users := db.users[k := IncreaseTimes(db.users[k], 0, env.now)])
  {
    assert db.users[k := db.users[k]] == db.users;
  }

  /** The inductive step: one more wrong attempt on an account that fewer
      than five failures left open. */
  lemma OneMoreWrongAttempt(db: Db, env: Env, req: LoginRequest, k: nat, n: nat)
    requires FindUserByEmail(db.users, req.email) == Some(k)
    requires db.users[k].isActive && db.users[k].loginFailCount == 0 && !db.users[k].IsLocked()
    requires !env.matches(req.password, db.users[k].password)
    requires 0 < n <= MaxLoginFailCount
    requires LoginTimes(db, env, req, n - 1) == db.(users := db.users[k := IncreaseTimes(db.users[k], n - 1, env.now)])
    ensures LoginTimes(db, env, req, n) == db.(users := db.users[k := IncreaseTimes(db.users[k], n, env.now)])
  {
    var m := n - 1;
    var u := db.users[k];
    var before := IncreaseTimes(u, m, env.now);
    var d := db.(users := db.users[k := before]);
    OpenAfterFewFailures(u, m, env.now);
    FindByEmailAfterUpdate(db.users, req.email, k, before);
    assert d.users[k] == before;
    WrongPasswordCountsOneFailure(d, env, req, k);
    assert LoginTimes(db, env, req, n) == Login(d, env, req).state;
    assert d.users[k := IncreaseLoginFailCount(before, env.now)] == db.users[k := IncreaseTimes(u, n, env.now)];
  }

  /** Lockout end to end: after four wrong passwords the right one still
      logs in; after five, even the right password is refused as locked, and
      the refusal changes nothing. */
  lemma FifthFailureLocksLogin(db: Db, env: Env, wrong: LoginRequest, right: LoginRequest, k: nat)
    requires FindUserByEmail(db.users, wrong.email) == Some(k) && right.email == wrong.email
    requires db.users[k].isActive && db.users[k].loginFailCount == 0 && !db.users[k].IsLocked()
    requires !env.matches(wrong.password, db.users[k].password)
    requires env.matches(right.password, db.users[k].password)
    ensures Login(LoginTimes(db, env, wrong, 4), env, right).result.Ok?
    ensures var locked := LoginTimes(db, env, wrong, 5);
      Login(locked, env, right) == Step(locked, Err(ValidationException(LockedAccount)))
  {
    var u := db.users[k];
    NoAttempts(db, env, wrong, k);
    OneMoreWrongAttempt(db, env, wrong, k, 1);
    OneMoreWrongAttempt(db, env, wrong, k, 2);
    OneMoreWrongAttempt(db, env, wrong, k, 3);
    OneMoreWrongAttempt(db, env, wrong, k, 4);
    OneMoreWrongAttempt(db, env, wrong, k, 5);
    FailuresFromFreshAccount(u, 4, env.now);
    FailuresFromFreshAccount(u, 5, env.now);
    FindByEmailAfterUpdate(db.users, wrong.email, k, IncreaseTimes(u, 4, env.now));
    FindByEmailAfterUpdate(db.users, wrong.email, k, IncreaseTimes(u, 5, env.now));
  }

  /** Login keeps every account's counter between 0 and the threshold and
      an account at the threshold locked. */
  predicate CountersBounded(users: seq<AdminUser>) {
    forall i :: 0 <= i < |users| ==> LockoutConsistent(users[i]) && users[i].loginFailCount <= MaxLoginFailCount
  }

  lemma LoginKeepsCountersBounded(db: Db, env: Env, req: LoginRequest)
    requires CountersBounded(db.users)
    ensures CountersBounded(Login(db, env, req).state.users)
  {
    match FindUserByEmail(db.users, req.email)
    case None =>
    case Some(k) =>
      LockoutOperationsPreserveConsistency(db.users[k], env.now);
  }

  // ---------------------------------------------------------------------
  // Refresh-token rotation

  /** `refresh`: an unknown token is invalid; an expired one is deleted and
      refused; a token whose owner is gone is refused; otherwise the token is
      deleted and a new pair issued. The account's state is not checked. The
      expired token's deletion is kept although the method then throws;
      `RefreshAsWritten` below is the method with its transaction rolled
      back. */
  function Refresh(db: Db, env: Env, value: string): (s: Step<Db, TokenPair>)
    ensures SameExceptTokens(s.state, db)
  {
    match FindByToken(db.refreshTokens, value)
    case None => Step(db, Err(UnauthorizedException(InvalidRefreshToken)))
    case Some(k) =>
      var stored := db.refreshTokens[k];
      if stored.IsExpired(env.now) then
        Step(db.(refreshTokens := RemoveAt(db.refreshTokens, k)), Err(UnauthorizedException(ExpiredRefreshToken)))
      else
        match FindUserById(db.users, stored.adminUserId)
        case None => Step(db, Err(UnauthorizedException(UserNotFound)))
        case Some(j) =>
          IssueTokens(db.(refreshTokens := RemoveAt(db.refreshTokens, k)), env, db.users[j])
  }

  /** An unknown token is refused as invalid and changes nothing. */
  lemma RefreshUnknownToken(db: Db, env: Env, value: string)
    requires forall t :: t in db.refreshTokens ==> t.token != value
    ensures Refresh(db, env, value) == Step(db, Err(UnauthorizedException(InvalidRefreshToken)))
  {
  }

  /** An expired token is deleted and refused as expired. */
  lemma RefreshExpiredToken(db: Db, env: Env, value: string, k: nat)
    requires FindByToken(db.refreshTokens, value) == Some(k)
    requires db.refreshTokens[k].IsExpired(env.now)
    ensures Refresh(db, env, value) ==
      Step(db.(refreshTokens := RemoveAt(db.refreshTokens, k)), Err(UnauthorizedException(ExpiredRefreshToken)))
  {
  }

  /** A live token whose owner no longer exists is refused, and kept. */
  lemma RefreshMissingOwner(db: Db, env: Env, value: string, k: nat)
    requires FindByToken(db.refreshTokens, value) == Some(k)
    requires !db.refreshTokens[k].IsExpired(env.now)
    requires forall u :: u in db.users ==> u.id != db.refreshTokens[k].adminUserId
    ensures Refresh(db, env, value) == Step(db, Err(UnauthorizedException(UserNotFound)))
  {
  }

  /** A token row removed by position leaves no row with its token when
      tokens were unique. */
  lemma RemoveUniqueToken(rows: seq<RefreshToken>, k: nat)
    requires k < |rows| && UniqueTokens(rows)
    ensures forall t :: t in RemoveAt(rows, k) ==> t.token != rows[k].token
    ensures forall t :: t in RemoveAt(rows, k) ==> t in rows
  {
    var r := RemoveAt(rows, k);
    forall t | t in r
      ensures t.token != rows[k].token && t in rows
    {
      var i :| 0 <= i < |r| && r[i] == t;
      if i < k {
        assert r[i] == rows[i];
      } else {
        assert r[i] == rows[i + 1];
      }
    }
  }

  /** A successful refresh consumes the presented token: afterwards only the
      newly issued token can carry that value, the owner has exactly one
      token, and every other user's tokens are untouched. */
  lemma RefreshRotates(db: Db, env: Env, value: string)
    requires UniqueTokens(db.refreshTokens)
    requires Refresh(db, env, value).result.Ok?
    ensures var s := Refresh(db, env, value);
      exists k :: 0 <= k < |db.refreshTokens| && db.refreshTokens[k].token == value
        && !db.refreshTokens[k].IsExpired(env.now)
        && CountFor(s.state.refreshTokens, db.refreshTokens[k].adminUserId) == 1
        && (forall t :: t in s.state.refreshTokens && t.token == value ==> t.token == s.result.value.refreshToken)
  {
    var k := FindByToken(db.refreshTokens, value).value;
    var j := FindUserById(db.users, db.refreshTokens[k].adminUserId).value;
    RemoveUniqueToken(db.refreshTokens, k);
    var s := Refresh(db, env, value);
    assert db.users[j].id == db.refreshTokens[k].adminUserId;
    forall t | t in s.state.refreshTokens && t.token == value
      ensures t.token == s.result.value.refreshToken
    {
      if t in RemoveAt(db.refreshTokens, k) {
        assert false;
      }
    }
  }

  /** Single use: once a token was refreshed, presenting it again is refused
      as invalid, unless the new token happens to carry the same string. */
  lemma RefreshTokenIsSingleUse(db: Db, env: Env, env2: Env, value: string)
    requires UniqueTokens(db.refreshTokens)
    requires Refresh(db, env, value).result.Ok?
    requires Refresh(db, env, value).result.value.refreshToken != value
    ensures var s := Refresh(db, env, value).state;
      Refresh(s, env2, value) == Step(s, Err(UnauthorizedException(InvalidRefreshToken)))
  {
    RefreshRotates(db, env, value);
  }

  /** An expired token is refused once as expired and from then on as
      invalid. */
  lemma ExpiredTokenThenInvalid(db: Db, env: Env, env2: Env, value: string)
    requires UniqueTokens(db.refreshTokens)
    requires Refresh(db, env, value).result == Err(UnauthorizedException(ExpiredRefreshToken))
    ensures var s := Refresh(db, env, value).state;
      Refresh(s, env2, value) == Step(s, Err(UnauthorizedException(InvalidRefreshToken)))
  {
    var k := FindByToken(db.refreshTokens, value).value;
    RemoveUniqueToken(db.refreshTokens, k);
  }

  /** Refresh ignores the account's state: a locked account that holds a
      live token still obtains a new pair. */
  lemma RefreshIgnoresLock(db: Db, env: Env, k: nat, j: nat)
    requires k < |db.refreshTokens| && j < |db.users|
    requires FindByToken(db.refreshTokens, db.refreshTokens[k].token) == Some(k)
    requires !db.refreshTokens[k].IsExpired(env.now)
    requires FindUserById(db.users, db.refreshTokens[k].adminUserId) == Some(j)
    requires db.users[j].IsLocked()
    ensures Refresh(db, env, db.refreshTokens[k].token).result.Ok?
  {
  }

  // ---------------------------------------------------------------------
  // The transaction boundary, as the program has it

  /** `login` and `refresh` are `@Transactional`, and every business
      exception is a `RuntimeException`, so when either method throws, Spring
      rolls back the writes the method made before throwing: the caller is
      left with the state from before the call. `Login` and `Refresh` above
      keep those writes, which is what the methods evidently intend; the
      functions below are the methods as they run. */
  function Committed<T>(db: Db, s: Step<Db, T>): Step<Db, T> {
    if s.result.Err? then Step(db, s.result) else s
  }

  function LoginAsWritten(db: Db, env: Env, req: LoginRequest): Step<Db, TokenPair> {
    Committed(db, Login(db, env, req))
  }

  /** `f` applied `n` times. */
  function Iterate<T>(f: T -> T, x: T, n: nat): T
    decreases n
  {
    if n == 0 then x else f(Iterate(f, x, n - 1))
  }

  /** A fixed point of `f` stays put however often `f` is applied. */
  lemma {:induction false} IterateFixedPoint<T>(f: T -> T, x: T, n: nat)
    requires f(x) == x
    ensures Iterate(f, x, n) == x
  {
    if n > 0 {
      IterateFixedPoint(f, x, n - 1);
    }
  }

  /** One login attempt in its own transaction, as a state transformer. */
  function LoginAttempt(env: Env, req: LoginRequest): Db -> Db {
    (d: Db) => LoginAsWritten(d, env, req).state
  }

  /** `n` login attempts with the same request, each in its own transaction. */
  function LoginAsWrittenTimes(db: Db, env: Env, req: LoginRequest, n: nat): Db {
    Iterate(LoginAttempt(env, req), db, n)
  }

  /** As written, a wrong password commits nothing: the failure it counts
      is rolled back with the exception, so any number of wrong passwords
      leave the database as it was. */
  lemma WrongPasswordsCommitNothing(db: Db, env: Env, wrong: LoginRequest, k: nat, n: nat)
    requires FindUserByEmail(db.users, wrong.email) == Some(k)
    requires db.users[k].isActive && !db.users[k].IsLocked()
    requires !env.matches(wrong.password, db.users[k].password)
    ensures LoginAsWrittenTimes(db, env, wrong, n) == db
  {
    WrongPasswordRolledBack(db, env, wrong, k);
    IterateFixedPoint(LoginAttempt(env, wrong), db, n);
  }

  /** One wrong password, as written: refused, and the database is as before. */
  lemma WrongPasswordRolledBack(db: Db, env: Env, wrong: LoginRequest, k: nat)
    requires FindUserByEmail(db.users, wrong.email) == Some(k)
    requires db.users[k].isActive && !db.users[k].IsLocked()
    requires !env.matches(wrong.password, db.users[k].password)
    ensures LoginAsWritten(db, env, wrong) == Step(db, Err(UnauthorizedException(InvalidCredentials)))
    ensures LoginAttempt(env, wrong)(db) == db
  {
    WrongPasswordCountsOneFailure(db, env, wrong, k);
  }

  /** The right password on an active, unlocked account logs in. */
  lemma RightPasswordLogsIn(db: Db, env: Env, right: LoginRequest, k: nat)
    requires FindUserByEmail(db.users, right.email) == Some(k)
    requires db.users[k].isActive && !db.users[k].IsLocked()
    requires env.matches(right.password, db.users[k].password)
    ensures Login(db, env, right).result.Ok?
  {
    var reset := ResetLoginFailCount(db.users[k]);
    assert Login(db, env, right) == IssueTokens(db.(users := db.users[k := reset]), env, reset);
  }

  /** As written, the lockout never takes effect: after any number of wrong
      passwords (five among them) the right password still logs in.
      `FifthFailureLocksLogin` is the intended behaviour. */
  lemma LockoutNeverPersists(db: Db, env: Env, wrong: LoginRequest, right: LoginRequest, k: nat, n: nat)
    requires FindUserByEmail(db.users, wrong.email) == Some(k) && right.email == wrong.email
    requires db.users[k].isActive && !db.users[k].IsLocked()
    requires !env.matches(wrong.password, db.users[k].password)
    requires env.matches(right.password, db.users[k].password)
    ensures LoginAsWrittenTimes(db, env, wrong, n) == db
    ensures LoginAsWritten(LoginAsWrittenTimes(db, env, wrong, n), env, right).result.Ok?
  {
    WrongPasswordsCommitNothing(db, env, wrong, k, n);
    RightPasswordLogsInAsWritten(db, env, right, k);
  }

  lemma RightPasswordLogsInAsWritten(db: Db, env: Env, right: LoginRequest, k: nat)
    requires FindUserByEmail(db.users, right.email) == Some(k)
    requires db.users[k].isActive && !db.users[k].IsLocked()
    requires env.matches(right.password, db.users[k].password)
    ensures LoginAsWritten(db, env, right).result.Ok?
  {
    RightPasswordLogsIn(db, env, right, k);
  }

  function RefreshAsWritten(db: Db, env: Env, value: string): Step<Db, TokenPair> {
    Committed(db, Refresh(db, env, value))
  }

  /** As written, an expired token is never deleted: the delete is rolled
      back with the exception, so presenting the token again, now or later,
      is refused as expired once more, never as invalid.
      `ExpiredTokenThenInvalid` is the intended behaviour. */
  lemma ExpiredTokenNeverDeleted(db: Db, env: Env, env2: Env, value: string)
    requires Refresh(db, env, value).result == Err(UnauthorizedException(ExpiredRefreshToken))
    requires env.now <= env2.now
    ensures RefreshAsWritten(db, env, value) == Step(db, Err(UnauthorizedException(ExpiredRefreshToken)))
    ensures RefreshAsWritten(RefreshAsWritten(db, env, value).state, env2, value)
      == Step(db, Err(UnauthorizedException(ExpiredRefreshToken)))
  {
    var k := FindByToken(db.refreshTokens, value).value;
    ExpiryIsPermanent(db.refreshTokens[k], env.now, env2.now);
  }

  // ---------------------------------------------------------------------
  // Logout

  /** `logout`: delete every refresh token of the user. */
  function Logout(db: Db, userId: nat): (r: Db)
    ensures SameExceptTokens(r, db)
    ensures CountFor(r.refreshTokens, userId) == 0
    ensures forall other :: other != userId ==> CountFor(r.refreshTokens, other) == CountFor(db.refreshTokens, other)
  {
    forall other | other != userId
      ensures CountFor(DeleteByUser(db.refreshTokens, userId), other) == CountFor(db.refreshTokens, other)
    {
      DeleteByUserKeepsOthers(db.refreshTokens, userId, other);
    }
    db.(refreshTokens := DeleteByUser(db.refreshTokens, userId))
  }

  /** Logging out twice is logging out once. */
  lemma LogoutIsIdempotent(db: Db, userId: nat)
    ensures Logout(Logout(db, userId), userId) == Logout(db, userId)
  {
    var rows := Logout(db, userId).refreshTokens;
    FilterOfDistinctOwner(rows, userId);
  }

  /** Deleting a user's rows from a table that has none changes nothing. */
  lemma {:induction false} FilterOfDistinctOwner(rows: seq<RefreshToken>, userId: nat)
    requires forall t :: t in rows ==> t.adminUserId != userId
    ensures DeleteByUser(rows, userId) == rows
  {
    var p := (t: RefreshToken) => NotOwnedBy(userId, t);
    FilterKeepsAll(rows, p);
  }

  // ---------------------------------------------------------------------
  // Token-table invariants

  /** The table invariants: unique token strings, at most one token per user,
      and every token names its owner as its subject. */
  predicate TokenTableOk(rows: seq<RefreshToken>, userIdOf: string -> Option<nat>) {
    UniqueTokens(rows) && AtMostOnePerUser(rows)
    && forall i :: 0 <= i < |rows| ==> userIdOf(rows[i].token) == Some(rows[i].adminUserId)
  }

  /** The token provider's `getUserId` reads back the subject of every
      refresh token the environment mints. */
  ghost predicate SubjectReadable(env: Env, userIdOf: string -> Option<nat>) {
    forall c: Claims :: userIdOf(env.refreshToken(c)) == Some(c.subject)
  }

  /** Removing rows keeps the invariants. */
  lemma SubsequenceKeepsTableOk(a: seq<RefreshToken>, b: seq<RefreshToken>, userIdOf: string -> Option<nat>)
    requires IsSubsequence(a, b) && TokenTableOk(b, userIdOf)
    ensures TokenTableOk(a, userIdOf)
  {
    SubsequenceKeepsUniqueness(a, b);
    forall i | 0 <= i < |a|
      ensures userIdOf(a[i].token) == Some(a[i].adminUserId)
    {
      assert a[i] in b;
      var j :| 0 <= j < |b| && b[j] == a[i];
    }
  }

  /** Issuing keeps the invariants: the user's old rows go, and the new token
      names the user, so it cannot clash with another user's token. */
  lemma IssueTokensKeepsTableOk(db: Db, env: Env, u: AdminUser, userIdOf: string -> Option<nat>)
    requires TokenTableOk(db.refreshTokens, userIdOf) && SubjectReadable(env, userIdOf)
    ensures TokenTableOk(IssueTokens(db, env, u).state.refreshTokens, userIdOf)
  {
    var kept := DeleteByUser(db.refreshTokens, u.id);
    SubsequenceKeepsTableOk(kept, db.refreshTokens, userIdOf);
    var row := RefreshToken(u.id, env.refreshToken(ClaimsOf(db, u)), ExpiresAt(env));
    var rows := kept + [row];
    assert userIdOf(row.token) == Some(u.id);
    forall i | 0 <= i < |kept|
      ensures kept[i].token != row.token && kept[i].adminUserId != row.adminUserId
    {
      assert kept[i] in kept;
    }
    assert IssueTokens(db, env, u).state.refreshTokens == rows;
  }

  /** Removing one row keeps the invariants. */
  lemma RemoveAtKeepsTableOk(rows: seq<RefreshToken>, k: nat, userIdOf: string -> Option<nat>)
    requires k < |rows| && TokenTableOk(rows, userIdOf)
    ensures TokenTableOk(RemoveAt(rows, k), userIdOf)
  {
    var r := RemoveAt(rows, k);
    forall i, j | 0 <= i < j < |r|
      ensures r[i].token != r[j].token && r[i].adminUserId != r[j].adminUserId
    {
      var i' := if i < k then i else i + 1;
      var j' := if j < k then j else j + 1;
      assert r[i] == rows[i'] && r[j] == rows[j'];
    }
    forall i | 0 <= i < |r|
      ensures userIdOf(r[i].token) == Some(r[i].adminUserId)
    {
      var i' := if i < k then i else i + 1;
      assert r[i] == rows[i'];
    }
  }

  /** Every operation keeps the token-table invariants, given a provider
      whose refresh tokens carry their subject. */
  lemma SignUpKeepsTableOk(db: Db, env: Env, req: SignUpRequest, userIdOf: string -> Option<nat>)
    requires TokenTableOk(db.refreshTokens, userIdOf)
    ensures TokenTableOk(SignUp(db, env, req).state.refreshTokens, userIdOf)
  {
  }

  lemma LoginKeepsTableOk(db: Db, env: Env, req: LoginRequest, userIdOf: string -> Option<nat>)
    requires TokenTableOk(db.refreshTokens, userIdOf) && SubjectReadable(env, userIdOf)
    ensures TokenTableOk(Login(db, env, req).state.refreshTokens, userIdOf)
  {
    match FindUserByEmail(db.users, req.email)
    case None =>
    case Some(k) =>
      var reset := ResetLoginFailCount(db.users[k]);
      IssueTokensKeepsTableOk(db.(users := db.users[k := reset]), env, reset, userIdOf);
  }

  lemma RefreshKeepsTableOk(db: Db, env: Env, value: string, userIdOf: string -> Option<nat>)
    requires TokenTableOk(db.refreshTokens, userIdOf) && SubjectReadable(env, userIdOf)
    ensures TokenTableOk(Refresh(db, env, value).state.refreshTokens, userIdOf)
  {
    match FindByToken(db.refreshTokens, value)
    case None =>
    case Some(k) =>
      RemoveAtKeepsTableOk(db.refreshTokens, k, userIdOf);
      match FindUserById(db.users, db.refreshTokens[k].adminUserId)
      case None =>
      case Some(j) =>
        IssueTokensKeepsTableOk(db.(refreshTokens := RemoveAt(db.refreshTokens, k)), env, db.users[j], userIdOf);
  }

  lemma LogoutKeepsTableOk(db: Db, userId: nat, userIdOf: string -> Option<nat>)
    requires TokenTableOk(db.refreshTokens, userIdOf)
    ensures TokenTableOk(Logout(db, userId).refreshTokens, userIdOf)
  {
    SubsequenceKeepsTableOk(Logout(db, userId).refreshTokens, db.refreshTokens, userIdOf);
  }

  // ---------------------------------------------------------------------
  // The caller's own profile

  /** `getMyInfo`: the account's role summaries, its sorted duplicate-free
      permission authorities, and the menus those authorities may see. */
  function GetMyInfo(db: Db, userId: nat): (r: Result<MyInfo>)
    ensures r.Err? <==> forall u :: u in db.users ==> u.id != userId
    ensures r.Err? ==> r.error == UnauthorizedException(UserNotFound)
    ensures r.Ok? ==> r.value.id == userId && StrictlySorted(r.value.permissions)
  {
    match FindUserById(db.users, userId)
    case None => Err(UnauthorizedException(UserNotFound))
    case Some(k) =>
      var u := db.users[k];
      var grants := LoadRoles(db, u);
      var permissions := SortedDistinct(AuthorityList(grants));
      Ok(MyInfo(u.id, u.email, u.name,
        seq(|grants|, i requires 0 <= i < |grants| => Summary(grants[i].role)),
        permissions,
        FindAccessibleMenus(db.menuTree, Elems(permissions))))
  }

  /** The profile agrees with the security principal of the same account:
      its permission list lists exactly the principal's permission
      authorities, is the only strictly sorted list that does, and the menus
      are the tree pruned by exactly that set. */
  lemma MyInfoMatchesPrincipal(db: Db, k: nat)
    requires k < |db.users| && FindUserById(db.users, db.users[k].id) == Some(k)
    ensures var p := Principal(db.users[k], LoadRoles(db, db.users[k]));
      var info := GetMyInfo(db, db.users[k].id).value;
      && Elems(info.permissions) == PermissionAuthorities(p.grants)
      && info.menus == FindAccessibleMenus(db.menuTree, PermissionAuthorities(p.grants))
      && |info.roles| == |p.grants|
      && (forall i :: 0 <= i < |p.grants| ==> info.roles[i] == Summary(p.grants[i].role))
      && (forall l :: StrictlySorted(l) && Elems(l) == PermissionAuthorities(p.grants) ==> l == info.permissions)
  {
    var p := Principal(db.users[k], LoadRoles(db, db.users[k]));
    var info := GetMyInfo(db, db.users[k].id).value;
    forall l | StrictlySorted(l) && Elems(l) == PermissionAuthorities(p.grants)
      ensures l == info.permissions
    {
      StrictlySortedUnique(l, info.permissions);
    }
  }
}
