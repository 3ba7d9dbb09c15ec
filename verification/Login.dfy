/** The login handlers over their shared state, each proved against its step function. */
module Login {
  import opened Prelude
  import opened LoginModel
  import Pending = PendingLogins
  import Limiter = RateLimiter

  class Api {
    const pendingLogins: Pending.Store
    const loginRL: Limiter.Buckets
    var totpCounters: map<UserId, int>
    var sessions: seq<Session>
    var upserts: seq<(Account, UserInfo)>

    constructor ()
      ensures fresh(pendingLogins) && fresh(loginRL)
      ensures Now() == START
    {
      pendingLogins := new Pending.Store();
      loginRL := new Limiter.Buckets();
      totpCounters, sessions, upserts := map[], [], [];
    }

    function Now(): State
      reads this, pendingLogins, loginRL
    {
      State(pendingLogins.m, loginRL.hits, totpCounters, sessions, upserts)
    }

    method Limited(key: string, max: nat, w: World) returns (allowed: bool)
      modifies loginRL
      ensures (Now(), allowed) == Limit(old(Now()), key, max, w)
    {
      allowed := loginRL.Take(key, max, MINUTE, w.now);
    }

    method ValidateCode(user: UserId, secret: string, code: string, w: World) returns (ok: bool)
      modifies this`totpCounters
      ensures (Now(), ok) == ValidateTOTP(old(Now()), user, secret, code, w)
    {
      if (secret, code) !in w.codes { return false; }
      var counter := w.codes[(secret, code)];
      if user in totpCounters && counter <= totpCounters[user] { return false; }
      totpCounters := totpCounters[user := counter];
      return true;
    }

    method NormalizeTOTPCode(s: string) returns (digits: string)
      ensures digits == Digits(Trim(s))
    {
      var t := Trim(s);
      digits := "";
      for i := 0 to |t|
        invariant digits + Digits(t[i..]) == Digits(t)
      {
        assert t[i..][1..] == t[i + 1..];
        if '0' <= t[i] <= '9' { digits := digits + [t[i]]; }
      }
    }

    method GateTOTPOrIssueToken(a: Account, info: UserInfo, totpCode: string, remember: bool, w: World)
      returns (stop: Option<Reply>)
      modifies pendingLogins, this`totpCounters
      ensures (Now(), stop) == Gate(old(Now()), a, info, totpCode, remember, w)
    {
      if !info.totpEnabled { return None; }
      var code := NormalizeTOTPCode(totpCode);
      if code == "" {
        pendingLogins.Issue(w.freshToken, a.user, a.tenant, remember, w.now, w.now);
        return Some(NeedsTotp(w.freshToken));
      }
      var ok := ValidateCode(a.user, info.totpSecret, code, w);
      return if ok then None else Some(InvalidTotp);
    }

    method WriteLoginSuccess(a: Account, remember: bool) returns (reply: Reply)
      modifies this`sessions
      ensures (Now(), reply) == Mint(old(Now()), a, remember)
    {
      var s := Session(a, remember);
      sessions := sessions + [s];
      return LoggedIn(s);
    }

    method GateAndEnter(a: Account, info: UserInfo, totpCode: string, remember: bool, w: World) returns (reply: Reply)
      modifies this, pendingLogins
      ensures (Now(), reply) == Enter(old(Now()), a, info, totpCode, remember, w)
    {
      var stop := GateTOTPOrIssueToken(a, info, totpCode, remember, w);
      if stop.Some? { return stop.value; }
      reply := WriteLoginSuccess(a, remember);
    }

    method HandleLoginTOTPStep(token: string, totpCode: string, ip: string, w: World) returns (reply: Reply)
      modifies this, pendingLogins, loginRL
      ensures (Now(), reply) == TotpStep(old(Now()), token, totpCode, ip, w)
    {
      var allowed := Limited("totp:" + ip, 30, w);
      if !allowed { return TooManyAttempts; }
      var pending := pendingLogins.Consume(token, w.now, w.now);
      if pending.None? { return LoginExpired; }
      reply := CheckPending(pending.value, totpCode, w);
    }

    method CheckPending(p: Pending.PendingLogin, totpCode: string, w: World) returns (reply: Reply)
      modifies this
      ensures (Now(), reply) == TotpCheck(old(Now()), p, totpCode, w)
    {
      var a := Account(p.tenant, p.user);
      if a !in w.users || w.users[a].disabled || !w.users[a].totpEnabled { return InvalidLogin; }
      var code := NormalizeTOTPCode(totpCode);
      if code == "" { return TotpRequired; }
      var ok := ValidateCode(a.user, w.users[a].totpSecret, code, w);
      if !ok { return InvalidTotp; }
      if a.tenant !in w.tenants { return InvalidLogin; }
      reply := WriteLoginSuccess(a, p.remember);
    }

    method HandleTenantChoice(req: LoginReq, w: World) returns (reply: Reply)
      modifies this, pendingLogins, loginRL
      ensures (Now(), reply) == TenantStep(old(Now()), req, w)
    {
      var pending := pendingLogins.ConsumeSelection(req.token, Trim(req.slug), w.now, w.now);
      if pending.None? {
        reply := HandleLoginTOTPStep(req.token, req.code, req.ip, w);
        return;
      }
      var a := Account(pending.value.tenant, pending.value.user);
      if a !in w.users || a.tenant !in w.tenants || w.users[a].disabled || w.tenants[a.tenant].disabled {
        return InvalidLogin;
      }
      reply := GateAndEnter(a, w.users[a], req.code, pending.value.remember, w);
    }

    /** Every open tenant in which the user name and password are good, in listing order. */
    method MatchTenants(username: string, w: World) returns (matches: seq<Pending.Candidate>)
      ensures matches == Candidates(w, w.listed, username)
    {
      matches := [];
      for i := 0 to |w.listed|
        invariant matches == Candidates(w, w.listed[..i], username)
      {
        Snoc(w.listed, i);
        var t := w.listed[i];
        if t !in w.tenants || w.tenants[t].disabled { continue; }
        var user := w.Find(t, username);
        if user.None? { continue; }
        var info := w.users[Account(t, user.value)];
        if !Authenticates(w, t, user.value, info.username) || info.disabled { continue; }
        matches := matches + [Pending.Candidate(user.value, t, w.tenants[t].slug, w.tenants[t].name)];
      }
      assert w.listed[..|w.listed|] == w.listed;
    }

    method HandleTenantlessLogin(req: LoginReq, w: World) returns (reply: Reply)
      modifies this, pendingLogins
      ensures (Now(), reply) == Tenantless(old(Now()), req, w)
    {
      var matches := MatchTenants(req.username, w);
      CandidatesAre(w, w.listed, req.username);
      if |matches| == 0 { return InvalidCredentials; }
      if |matches| > 1 {
        pendingLogins.IssueSelection(w.freshToken, matches, req.remember, w.now, w.now);
        return NeedsTenant(w.freshToken, Slugs(matches));
      }
      assert matches[0] in matches;
      var a := AccountOf(matches[0]);
      reply := GateAndEnter(a, w.users[a], req.code, req.remember, w);
    }

    method HandleSlugLogin(req: LoginReq, w: World) returns (reply: Reply)
      modifies this, pendingLogins
      ensures (Now(), reply) == WithSlug(old(Now()), req, w)
    {
      var tenant := w.Tenant(req.slug);
      if tenant.None? { return InvalidCredentials; }
      var t := tenant.value;
      if w.tenants[t].disabled { return TenantDisabled; }
      var user := w.Find(t, req.username);
      var a: Account;
      var info: UserInfo;
      if user.None? {
        // A first successful bind provisions the user.
        if t !in w.ldap || (t, req.username) !in w.binds { return InvalidCredentials; }
        if !w.provisions { return ProvisionFailed; }
        a, info := Account(t, w.binds[(t, req.username)]), Provisioned(req.username);
        upserts := upserts + [(a, info)];
      } else {
        a := Account(t, user.value);
        info := w.users[a];
        if !Authenticates(w, t, user.value, req.username) { return InvalidCredentials; }
      }
      if info.disabled { return AccountDisabled; }
      reply := GateAndEnter(a, info, req.code, req.remember, w);
    }

    method HandleLogin(req: LoginReq, w: World) returns (reply: Reply)
      modifies this, pendingLogins, loginRL
      ensures (Now(), reply) == LoginModel.HandleLogin(old(Now()), req, w)
    {
      if !w.initialized { return NotInitialized; }
      var allowed := Limited("login:" + req.ip, 20, w);
      if !allowed { return TooManyAttempts; }
      if req.token != "" && req.slug != "" {
        reply := HandleTenantChoice(req, w);
        return;
      }
      if req.token != "" {
        reply := HandleLoginTOTPStep(req.token, req.code, req.ip, w);
        return;
      }
      reply := HandlePassword(req, w);
    }

    method HandlePassword(req: LoginReq, w: World) returns (reply: Reply)
      modifies this, pendingLogins, loginRL
      ensures (Now(), reply) == PasswordStep(old(Now()), req, w)
    {
      var userKey := Lower(Trim(req.slug)) + ":" + Lower(Trim(req.username));
      if userKey != ":" {
        var allowed := Limited("login:user:" + userKey, 10, w);
        if !allowed { return TooManyAttempts; }
      }
      if Trim(req.slug) == "" {
        reply := HandleTenantlessLogin(req, w);
      } else {
        reply := HandleSlugLogin(req, w);
      }
    }

    method HandleWALoginFinish(req: PasskeyReq, w: World) returns (reply: Reply)
      modifies this, pendingLogins
      ensures (Now(), reply) == HandlePasskey(old(Now()), req, w)
    {
      if !w.initialized { return NotInitialized; }
      var tenant := w.Tenant(req.slug);
      if tenant.None? || w.tenants[tenant.value].disabled { return InvalidCredentials; }
      var user := w.Find(tenant.value, req.username);
      if user.None? { return InvalidCredentials; }
      var a := Account(tenant.value, user.value);
      if w.users[a].disabled || a !in w.passkeys { return InvalidCredentials; }
      if w.users[a].totpEnabled {
        var stop := GateTOTPOrIssueToken(a, w.users[a], req.code, req.remember, w);
        if stop.Some? { return stop.value; }
      }
      reply := WriteLoginSuccess(a, req.remember);
    }
  }
}
