/** Logging in: what each login request does to tokens, limiter, TOTP memory and sessions. */
module LoginModel {
  import opened Prelude
  import Pending = PendingLogins
  import Limiter = RateLimiter

  type UserId = string
  type TenantId = string
  type Time = int

  const MINUTE: nat := 60 * 1_000_000_000

  datatype Account = Account(tenant: TenantId, user: UserId)
  datatype Backend = Local | Ldap | Unknown
  datatype UserInfo = UserInfo(username: string, backend: Backend, disabled: bool, totpEnabled: bool, totpSecret: string)
  datatype TenantInfo = TenantInfo(slug: string, name: string, disabled: bool)

  /** What one request meets outside: the records it reads, and the verdicts of the checks it may ask for. */
  datatype World = World(
    initialized: bool, now: Time, freshToken: string,
    tenants: map<TenantId, TenantInfo>, listed: seq<TenantId>, bySlug: map<string, TenantId>,
    users: map<Account, UserInfo>, byName: map<(TenantId, string), UserId>,
    passwords: set<Account>,                  // accounts whose stored hash the password sent verifies
    ldap: set<TenantId>,                      // tenants with LDAP switched on
    binds: map<(TenantId, string), UserId>,   // user names the password sent binds, and the id of their entry
    provisions: bool,                         // whether storing a new user succeeds
    codes: map<(string, string), int>,        // time step a code is valid for, by stored TOTP secret and code
    passkeys: set<Account>)                   // accounts whose passkey assertion verifies
  {
    /** The empty id names nobody. */
    ghost predicate Valid() { Account("", "") !in users }

    function Tenant(slug: string): Option<TenantId> {
      if slug in bySlug && bySlug[slug] in tenants then Some(bySlug[slug]) else None
    }

    /** A user found by name. */
    function Find(tenant: TenantId, username: string): Option<UserId> {
      if (tenant, username) in byName && Account(tenant, byName[(tenant, username)]) in users
      then Some(byName[(tenant, username)]) else None
    }
  }

  datatype Session = Session(account: Account, remembered: bool)

  /** The shared state; `upserts` are the user records handed to the store, in order. */
  datatype State = State(
    pending: Pending.Tokens, hits: Limiter.Hits, counters: map<UserId, int>, sessions: seq<Session>,
    upserts: seq<(Account, UserInfo)>)

  const START: State := State(map[], map[], map[], [], [])

  datatype LoginReq = LoginReq(ip: string, slug: string, username: string, code: string, token: string, remember: bool)
  datatype PasskeyReq = PasskeyReq(slug: string, username: string, code: string, remember: bool)
  datatype Request = Login(login: LoginReq) | Passkey(passkey: PasskeyReq)

  datatype Reply =
    | NotInitialized | TooManyAttempts | InvalidCredentials | TenantDisabled | AccountDisabled | ProvisionFailed
    | InvalidLogin | LoginExpired | TotpRequired | InvalidTotp
    | NeedsTotp(token: string) | NeedsTenant(token: string, slugs: seq<string>)
    | LoggedIn(session: Session)

  // ---- Shared steps -------------------------------------------------------------------------

  /** The digits of a code, in order. */
  function Digits(s: string): string {
    if s == "" then "" else if '0' <= s[0] <= '9' then [s[0]] + Digits(s[1..]) else Digits(s[1..])
  }

  function Limit(st: State, key: string, max: nat, w: World): (State, bool) {
    var call := Limiter.Call(key, max, w.now);
    (st.(hits := Limiter.Allow(st.hits, call, MINUTE)), !Limiter.Full(st.hits, call, MINUTE))
  }

  function PendingOp(st: State, call: Pending.Call, token: string, w: World): (State, Option<Pending.PendingLogin>) {
    var (m, p) := Pending.Next(st.pending, Pending.Op(call, token, w.now, w.now), true);
    (st.(pending := m), p)
  }

  /** A code counts once: its time step must be beyond the last one accepted for the user. */
  function ValidateTOTP(st: State, user: UserId, secret: string, code: string, w: World): (State, bool) {
    if (secret, code) !in w.codes then (st, false)
    else
      var counter := w.codes[(secret, code)];
      if user in st.counters && counter <= st.counters[user] then (st, false)
      else (st.(counters := st.counters[user := counter]), true)
  }

  function Mint(st: State, a: Account, remember: bool): (State, Reply) {
    var s := Session(a, remember);
    (st.(sessions := st.sessions + [s]), LoggedIn(s))
  }

  /** The TOTP gate after a first factor: no reply means it is open. */
  function Gate(st: State, a: Account, info: UserInfo, totpCode: string, remember: bool, w: World): (State, Option<Reply>) {
    if !info.totpEnabled then (st, None)
    else
      var code := Digits(Trim(totpCode));
      if code == "" then
        var (st1, _) := PendingOp(st, Pending.Issue(a.user, a.tenant, remember), w.freshToken, w);
        (st1, Some(NeedsTotp(w.freshToken)))
      else
        var (st1, ok) := ValidateTOTP(st, a.user, info.totpSecret, code, w);
        (st1, if ok then None else Some(InvalidTotp))
  }

  function Enter(st: State, a: Account, info: UserInfo, totpCode: string, remember: bool, w: World): (State, Reply) {
    var (st1, stop) := Gate(st, a, info, totpCode, remember, w);
    if stop.Some? then (st1, stop.value) else Mint(st1, a, remember)
  }

  // ---- The second request: a token and a code -----------------------------------------------

  function TotpStep(st: State, token: string, totpCode: string, ip: string, w: World): (State, Reply) {
    var (st1, allowed) := Limit(st, "totp:" + ip, 30, w);
    if !allowed then (st1, TooManyAttempts)
    else
      var (st2, p) := PendingOp(st1, Pending.Consume, token, w);
      if p.None? then (st2, LoginExpired) else TotpCheck(st2, p.value, totpCode, w)
  }

  /** The account is looked up again, and needs a code of its own. */
  function TotpCheck(st: State, p: Pending.PendingLogin, totpCode: string, w: World): (State, Reply) {
    var a := Account(p.tenant, p.user);
    if a !in w.users || w.users[a].disabled || !w.users[a].totpEnabled then (st, InvalidLogin)
    else
      var code := Digits(Trim(totpCode));
      if code == "" then (st, TotpRequired)
      else
        var (st1, ok) := ValidateTOTP(st, a.user, w.users[a].totpSecret, code, w);
        if !ok then (st1, InvalidTotp)
        else if a.tenant !in w.tenants then (st1, InvalidLogin)
        else Mint(st1, a, p.remember)
  }

  /** Choosing a tenant; a token that offers no such choice goes on to the code step, where it cannot succeed. */
  function TenantStep(st: State, req: LoginReq, w: World): (State, Reply) {
    var (st1, p) := PendingOp(st, Pending.ConsumeSelection(Trim(req.slug)), req.token, w);
    if p.None? then TotpStep(st1, req.token, req.code, req.ip, w) else Chosen(st1, p.value, req.code, w)
  }

  /** The chosen account is looked up again, and its tenant too. */
  function Chosen(st: State, p: Pending.PendingLogin, code: string, w: World): (State, Reply) {
    var a := Account(p.tenant, p.user);
    if a !in w.users || a.tenant !in w.tenants || w.users[a].disabled || w.tenants[a.tenant].disabled then (st, InvalidLogin)
    else Enter(st, a, w.users[a], code, p.remember, w)
  }

  // ---- First factors ------------------------------------------------------------------------

  predicate Authenticates(w: World, tenant: TenantId, user: UserId, username: string)
    requires Account(tenant, user) in w.users
  {
    match w.users[Account(tenant, user)].backend
    case Local => Account(tenant, user) in w.passwords
    case Ldap => tenant in w.ldap && (tenant, username) in w.binds
    case Unknown => false
  }

  function Candidates(w: World, listed: seq<TenantId>, username: string): seq<Pending.Candidate> {
    if listed == [] then []
    else
      var earlier, t := Candidates(w, listed[..|listed| - 1], username), listed[|listed| - 1];
      if t !in w.tenants || w.tenants[t].disabled || w.Find(t, username).None? then earlier
      else
        var u := w.Find(t, username).value;
        var info := w.users[Account(t, u)];
        if !Authenticates(w, t, u, info.username) || info.disabled then earlier
        else earlier + [Pending.Candidate(u, t, w.tenants[t].slug, w.tenants[t].name)]
  }

  /** In this open tenant the user of that name is enabled and the password is good for it. */
  ghost predicate Offered(w: World, username: string, a: Account) {
    && a.tenant in w.tenants && !w.tenants[a.tenant].disabled && w.Find(a.tenant, username) == Some(a.user)
    && !w.users[a].disabled && Authenticates(w, a.tenant, a.user, w.users[a].username)
  }

  function AccountOf(c: Pending.Candidate): Account { Account(c.tenant, c.user) }

  /** The candidates are exactly the accounts of the listed tenants that are offered. */
  lemma {:induction false} CandidatesAre(w: World, listed: seq<TenantId>, username: string)
    ensures forall c :: c in Candidates(w, listed, username) ==> c.tenant in listed && Offered(w, username, AccountOf(c))
    ensures forall a: Account :: a.tenant in listed && Offered(w, username, a) ==>
              exists c :: c in Candidates(w, listed, username) && AccountOf(c) == a
  {
    if listed != [] {
      var n := |listed| - 1;
      var earlier, all := Candidates(w, listed[..n], username), Candidates(w, listed, username);
      CandidatesAre(w, listed[..n], username);
      assert earlier <= all;
      forall a: Account | a.tenant in listed && Offered(w, username, a) ensures exists c :: c in all && AccountOf(c) == a {
        if a.tenant == listed[n] {
          assert AccountOf(all[|all| - 1]) == a;
        } else {
          assert a.tenant in listed[..n];
          var c :| c in earlier && AccountOf(c) == a;
          assert c in all;
        }
      }
    }
  }

  function Slugs(cs: seq<Pending.Candidate>): (slugs: seq<string>)
    ensures |slugs| == |cs| && forall i :: 0 <= i < |cs| ==> slugs[i] == cs[i].slug
  {
    seq(|cs|, i requires 0 <= i < |cs| => cs[i].slug)
  }

  function Tenantless(st: State, req: LoginReq, w: World): (State, Reply) {
    var cs := Candidates(w, w.listed, req.username);
    CandidatesAre(w, w.listed, req.username);
    if cs == [] then (st, InvalidCredentials)
    else if |cs| > 1 then
      var (st1, _) := PendingOp(st, Pending.IssueSelection(cs, req.remember), w.freshToken, w);
      (st1, NeedsTenant(w.freshToken, Slugs(cs)))
    else
      assert cs[0] in cs;
      var a := AccountOf(cs[0]);
      Enter(st, a, w.users[a], req.code, req.remember, w)
  }

  /** A user provisioned on a first LDAP bind, whatever record may already be stored under that id. */
  function Provisioned(username: string): UserInfo { UserInfo(username, Ldap, false, false, "") }

  function WithSlug(st: State, req: LoginReq, w: World): (State, Reply) {
    var tenant := w.Tenant(req.slug);
    if tenant.None? then (st, InvalidCredentials)
    else if w.tenants[tenant.value].disabled then (st, TenantDisabled)
    else
      var t := tenant.value;
      var user := w.Find(t, req.username);
      if user.None? then
        if t !in w.ldap || (t, req.username) !in w.binds then (st, InvalidCredentials)
        else if !w.provisions then (st, ProvisionFailed)
        else
          var a, info := Account(t, w.binds[(t, req.username)]), Provisioned(req.username);
          Enter(st.(upserts := st.upserts + [(a, info)]), a, info, req.code, req.remember, w)
      else
        var a := Account(t, user.value);
        if !Authenticates(w, t, user.value, req.username) then (st, InvalidCredentials)
        else if w.users[a].disabled then (st, AccountDisabled)
        else Enter(st, a, w.users[a], req.code, req.remember, w)
  }

  function UserKey(req: LoginReq): string { Lower(Trim(req.slug)) + ":" + Lower(Trim(req.username)) }

  function HandleLogin(st: State, req: LoginReq, w: World): (State, Reply) {
    if !w.initialized then (st, NotInitialized)
    else
      var (st1, allowed) := Limit(st, "login:" + req.ip, 20, w);
      if !allowed then (st1, TooManyAttempts)
      else if req.token != "" && req.slug != "" then TenantStep(st1, req, w)
      else if req.token != "" then TotpStep(st1, req.token, req.code, req.ip, w)
      else PasswordStep(st1, req, w)
  }

  function PasswordStep(st: State, req: LoginReq, w: World): (State, Reply) {
    var (st1, allowed) := if UserKey(req) == ":" then (st, true) else Limit(st, "login:user:" + UserKey(req), 10, w);
    if !allowed then (st1, TooManyAttempts)
    else if Trim(req.slug) == "" then Tenantless(st1, req, w)
    else WithSlug(st1, req, w)
  }

  function HandlePasskey(st: State, req: PasskeyReq, w: World): (State, Reply) {
    if !w.initialized then (st, NotInitialized)
    else
      var tenant := w.Tenant(req.slug);
      if tenant.None? || w.tenants[tenant.value].disabled then (st, InvalidCredentials)
      else
        var t := tenant.value;
        var user := w.Find(t, req.username);
        if user.None? || w.users[Account(t, user.value)].disabled then (st, InvalidCredentials)
        else
          var a := Account(t, user.value);
          if a !in w.passkeys then (st, InvalidCredentials)
          else Enter(st, a, w.users[a], req.code, req.remember, w)
  }
}
