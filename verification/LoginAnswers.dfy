/** What each login request is answered: whom it lets in, what it asks for next, and why it is turned away. */
module LoginAnswers {
  import opened Prelude
  import opened LoginCodes
  import opened LoginModel
  import opened LoginRuns
  import Pending = PendingLogins

  // ---- The gate -----------------------------------------------------------------------------

  /** The code opens the gate: none is needed, or it is valid for the secret at a new time step. */
  predicate Opens(st: State, user: UserId, info: UserInfo, code: string, w: World) {
    info.totpEnabled ==>
      var key := (info.totpSecret, Digits(Trim(code)));
      Digits(Trim(code)) != "" && key in w.codes && NewStep(st, user, w.codes[key])
  }

  function GateReply(st: State, a: Account, info: UserInfo, code: string, remember: bool, w: World): Reply {
    if Opens(st, a.user, info, code, w) then LoggedIn(Session(a, remember))
    else if Digits(Trim(code)) == "" then NeedsTotp(w.freshToken)
    else InvalidTotp
  }

  /** A token now waits for the code of this account. */
  predicate Waits(after: State, token: string, a: Account, remember: bool, now: Time) {
    && token in after.pending
    && after.pending[token] == Pending.PendingLogin(a.user, a.tenant, remember, now + Pending.PENDING_LOGIN_TTL, [])
  }

  lemma EnterAnswers(st: State, a: Account, info: UserInfo, code: string, remember: bool, w: World)
    ensures var (after, reply) := Enter(st, a, info, code, remember, w);
            && reply == GateReply(st, a, info, code, remember, w)
            && (reply.NeedsTotp? ==> Waits(after, w.freshToken, a, remember, w.now))
            && after.sessions == (if reply.LoggedIn? then st.sessions + [Session(a, remember)] else st.sessions)
  {}

  // ---- Password logins in a tenant ----------------------------------------------------------

  /** The record a first factor goes by: the stored one, or the one just provisioned. */
  function RecordOf(w: World, username: string, a: Account): UserInfo
    requires w.Find(a.tenant, username).Some? ==> a in w.users
  {
    if w.Find(a.tenant, username).Some? then w.users[a] else Provisioned(username)
  }

  lemma WithSlugAnswers(st: State, req: LoginReq, w: World, a: Account)
    requires a.tenant in w.tenants && !w.tenants[a.tenant].disabled && w.Tenant(req.slug) == Some(a.tenant)
    requires ByPassword(w, req.username, a) || ByFirstBind(w, req.username, a)
    ensures var (after, reply) := WithSlug(st, req, w);
            && reply == GateReply(st, a, RecordOf(w, req.username, a), req.code, req.remember, w)
            && (reply.NeedsTotp? ==> Waits(after, w.freshToken, a, req.remember, w.now))
  {
    var info := RecordOf(w, req.username, a);
    EnterAnswers(st, a, info, req.code, req.remember, w);
    EnterAnswers(st.(upserts := st.upserts + [(a, info)]), a, info, req.code, req.remember, w);
  }

  /** Why a request that names a tenant is turned away at its first factor. */
  ghost predicate SlugCause(w: World, req: LoginReq, why: Reply) {
    var tenant := w.Tenant(req.slug);
    if tenant.None? then why == InvalidCredentials
    else if w.tenants[tenant.value].disabled then why == TenantDisabled
    else
      var user := w.Find(tenant.value, req.username);
      if user.Some? then
        if Authenticates(w, tenant.value, user.value, req.username) then why == AccountDisabled else why == InvalidCredentials
      else if tenant.value in w.ldap && (tenant.value, req.username) in w.binds then why == ProvisionFailed
      else why == InvalidCredentials
  }

  lemma WithSlugRefused(st: State, req: LoginReq, w: World)
    requires !Passed(WithSlug(st, req, w).1)
    ensures SlugCause(w, req, WithSlug(st, req, w).1) && WithSlug(st, req, w).0 == st
  {
    var tenant := w.Tenant(req.slug);
    if tenant.Some? {
      var t := tenant.value;
      var user := w.Find(t, req.username);
      if user.Some? {
        EnterPasses(st, Account(t, user.value), w.users[Account(t, user.value)], req.code, req.remember, w);
      } else if (t, req.username) in w.binds {
        var a, info := Account(t, w.binds[(t, req.username)]), Provisioned(req.username);
        EnterPasses(st.(upserts := st.upserts + [(a, info)]), a, info, req.code, req.remember, w);
      }
    }
  }

  /** The state in which an admitted password request meets its first factor. */
  function AfterLimits(st: State, r: LoginReq, w: World): State {
    var st1 := Limit(st, "login:" + r.ip, 20, w).0;
    if UserKey(r) == ":" then st1 else Limit(st1, "login:user:" + UserKey(r), 10, w).0
  }

  lemma AdmittedMeets(st: State, r: LoginReq, w: World)
    requires w.initialized && r.token == "" && Admitted(st, Event(Login(r), w))
    ensures AfterLimits(st, r, w).counters == st.counters && AfterLimits(st, r, w).sessions == st.sessions
    ensures HandleLogin(st, r, w) == if Trim(r.slug) == "" then Tenantless(AfterLimits(st, r, w), r, w)
                                     else WithSlug(AfterLimits(st, r, w), r, w)
  {}

  /** An accepted first factor in the tenant named is answered by the gate of that very account, and the session
      is remembered exactly if the request asked for it. */
  lemma SlugAnswers(st: State, r: LoginReq, w: World, a: Account)
    requires r.token == "" && Trim(r.slug) != "" && Accepted(st, Event(Login(r), w), a)
    ensures var (after, reply) := HandleLogin(st, r, w);
            && reply == GateReply(st, a, RecordOf(w, r.username, a), r.code, r.remember, w)
            && (reply.NeedsTotp? ==> Waits(after, w.freshToken, a, r.remember, w.now))
  {
    AdmittedMeets(st, r, w);
    WithSlugAnswers(AfterLimits(st, r, w), r, w, a);
  }

  lemma PasskeyAnswers(st: State, r: PasskeyReq, w: World, a: Account)
    requires Accepted(st, Event(Passkey(r), w), a)
    ensures var (after, reply) := HandlePasskey(st, r, w);
            && reply == GateReply(st, a, w.users[a], r.code, r.remember, w)
            && (reply.NeedsTotp? ==> Waits(after, w.freshToken, a, r.remember, w.now))
  {
    EnterAnswers(st, a, w.users[a], r.code, r.remember, w);
  }

  // ---- Password logins without a tenant -----------------------------------------------------

  /** The i-th listed tenant offers an account. */
  ghost predicate OffersAt(w: World, listed: seq<TenantId>, username: string, i: nat)
    requires i < |listed|
  {
    exists a: Account :: a.tenant == listed[i] && Offered(w, username, a)
  }

  /** A candidate stands for the account its tenant offers. */
  ghost predicate StandsFor(w: World, username: string, c: Pending.Candidate, t: TenantId) {
    && c.tenant == t && Offered(w, username, AccountOf(c))
    && c.slug == w.tenants[t].slug && c.name == w.tenants[t].name
  }

  /** The candidates are those of the tenants that offer an account, one each, in listing order. */
  ghost predicate InOrder(w: World, listed: seq<TenantId>, username: string, cs: seq<Pending.Candidate>, at: seq<nat>) {
    && |at| == |cs| && (forall k, l :: 0 <= k < l < |at| ==> at[k] < at[l])
    && (forall k :: 0 <= k < |at| ==> at[k] < |listed| && StandsFor(w, username, cs[k], listed[at[k]]))
    && (forall i :: 0 <= i < |listed| && OffersAt(w, listed, username, i) ==> i in at)
  }

  lemma {:induction false} CandidatesInOrder(w: World, listed: seq<TenantId>, username: string) returns (at: seq<nat>)
    ensures InOrder(w, listed, username, Candidates(w, listed, username), at)
  {
    at := [];
    if listed != [] {
      var n := |listed| - 1;
      var init, t := listed[..n], listed[n];
      at := CandidatesInOrder(w, init, username);
      var earlier, all := Candidates(w, init, username), Candidates(w, listed, username);
      forall i | 0 <= i < n && OffersAt(w, listed, username, i) ensures i in at {
        var a: Account :| a.tenant == listed[i] && Offered(w, username, a);
        assert a.tenant == init[i];
        assert OffersAt(w, init, username, i);
      }
      if OffersAt(w, listed, username, n) {
        OneMore(w, init, t, username, earlier, all, at);
        at := at + [n];
      } else {
        OneLess(w, init, t, username);
      }
    }
  }

  lemma OneMore(w: World, init: seq<TenantId>, t: TenantId, username: string, earlier: seq<Pending.Candidate>,
                all: seq<Pending.Candidate>, at: seq<nat>)
    requires earlier == Candidates(w, init, username) && all == Candidates(w, init + [t], username)
    requires InOrder(w, init, username, earlier, at) && exists a: Account :: a.tenant == t && Offered(w, username, a)
    ensures |all| == |earlier| + 1 && all[..|earlier|] == earlier && StandsFor(w, username, all[|earlier|], t)
  {
    assert (init + [t])[..|init|] == init;
    var a: Account :| a.tenant == t && Offered(w, username, a);
  }

  lemma OneLess(w: World, init: seq<TenantId>, t: TenantId, username: string)
    requires !exists a: Account :: a.tenant == t && Offered(w, username, a)
    ensures Candidates(w, init + [t], username) == Candidates(w, init, username)
  {
    assert (init + [t])[..|init|] == init;
    if t in w.tenants && w.Find(t, username).Some? {
      assert !Offered(w, username, Account(t, w.Find(t, username).value));
    }
  }

  /** Without a tenant: nobody is let in if no tenant offers an account; the gate decides if exactly one does;
      if more do, each of their tenants may be chosen with the token given. */
  lemma TenantlessAnswers(st: State, req: LoginReq, w: World) returns (cs: seq<Pending.Candidate>, at: seq<nat>)
    ensures InOrder(w, w.listed, req.username, cs, at)
    ensures var (after, reply) := Tenantless(st, req, w);
            if |cs| == 0 then reply == InvalidCredentials && after == st
            else if |cs| == 1 then
              && reply == GateReply(st, AccountOf(cs[0]), w.users[AccountOf(cs[0])], req.code, req.remember, w)
              && (reply.NeedsTotp? ==> Waits(after, w.freshToken, AccountOf(cs[0]), req.remember, w.now))
            else
              && reply.NeedsTenant? && reply.token == w.freshToken && |reply.slugs| == |cs|
              && (forall k :: 0 <= k < |cs| ==> reply.slugs[k] == w.tenants[w.listed[at[k]]].slug)
              && after.sessions == st.sessions && after.counters == st.counters && w.freshToken in after.pending
              && after.pending[w.freshToken]
                   == Pending.PendingLogin("", "", req.remember, w.now + Pending.PENDING_LOGIN_TTL, cs)
  {
    cs := Candidates(w, w.listed, req.username);
    at := CandidatesInOrder(w, w.listed, req.username);
    if |cs| == 1 {
      var a := AccountOf(cs[0]);
      EnterAnswers(st, a, w.users[a], req.code, req.remember, w);
    }
  }

  // ---- The second request -------------------------------------------------------------------

  predicate Live(st: State, token: string, now: Time) { token in st.pending && now <= st.pending[token].expires }

  /** The pending login with its code completed. */
  ghost predicate CodeLetsIn(st: State, token: string, code: string, w: World, s: Session) {
    && Live(st, token, w.now)
    && var p := st.pending[token];
    && var a := Account(p.tenant, p.user);
    && a in w.users && !w.users[a].disabled && w.users[a].totpEnabled && a.tenant in w.tenants
    && Opens(st, a.user, w.users[a], code, w) && s == Session(a, p.remember)
  }

  lemma TotpStepAnswers(st: State, token: string, code: string, ip: string, w: World, s: Session)
    ensures TotpStep(st, token, code, ip, w).1 == LoggedIn(s)
       <==> Limit(st, "totp:" + ip, 30, w).1 && CodeLetsIn(st, token, code, w, s)
  {
    var st1 := Limit(st, "totp:" + ip, 30, w).0;
    var (st2, p) := PendingOp(st1, Pending.Consume, token, w);
    assert p.Some? <==> Live(st, token, w.now);
    if p.Some? { TotpCheckAnswers(st2, p.value, code, w, s); }
  }

  lemma TotpCheckAnswers(st: State, p: Pending.PendingLogin, code: string, w: World, s: Session)
    ensures var a := Account(p.tenant, p.user);
            (TotpCheck(st, p, code, w).1 == LoggedIn(s))
              <==> (a in w.users && !w.users[a].disabled && w.users[a].totpEnabled && a.tenant in w.tenants
                    && Opens(st, a.user, w.users[a], code, w) && s == Session(a, p.remember))
  {}

  /** A token alone lets in exactly the account it waits for, while it is live, the user is enabled with TOTP on,
      and the code is valid at a new time step. */
  lemma TokenAnswers(st: State, r: LoginReq, w: World, s: Session)
    requires r.token != "" && r.slug == ""
    ensures HandleLogin(st, r, w).1 == LoggedIn(s)
       <==> && w.initialized && Limit(st, "login:" + r.ip, 20, w).1
            && Limit(Limit(st, "login:" + r.ip, 20, w).0, "totp:" + r.ip, 30, w).1 && CodeLetsIn(st, r.token, r.code, w, s)
  {
    var st1 := Limit(st, "login:" + r.ip, 20, w).0;
    TotpStepAnswers(st1, r.token, r.code, r.ip, w, s);
    assert CodeLetsIn(st1, r.token, r.code, w, s) <==> CodeLetsIn(st, r.token, r.code, w, s);
  }

  /** The first candidate of this slug. */
  ghost predicate FirstOfSlug(cs: seq<Pending.Candidate>, slug: string, c: Pending.Candidate) {
    exists i :: 0 <= i < |cs| && cs[i] == c && c.slug == slug && forall j :: 0 <= j < i ==> cs[j].slug != slug
  }

  lemma {:induction false} FirstIs(cs: seq<Pending.Candidate>, slug: string, c: Pending.Candidate)
    requires FirstOfSlug(cs, slug, c)
    ensures Pending.FirstWithSlug(cs, slug) == Some(c)
  {
    var i :| 0 <= i < |cs| && cs[i] == c && c.slug == slug && forall j :: 0 <= j < i ==> cs[j].slug != slug;
    if i > 0 {
      assert cs[1..][i - 1] == c && forall j :: 0 <= j < i - 1 ==> cs[1..][j].slug != slug;
      FirstIs(cs[1..], slug, c);
    }
  }

  lemma ChosenAnswers(st: State, p: Pending.PendingLogin, code: string, w: World)
    ensures var a := Account(p.tenant, p.user);
            var (after, reply) := Chosen(st, p, code, w);
            if a in w.users && !w.users[a].disabled && a.tenant in w.tenants && !w.tenants[a.tenant].disabled
            then reply == GateReply(st, a, w.users[a], code, p.remember, w)
                 && (reply.NeedsTotp? ==> Waits(after, w.freshToken, a, p.remember, w.now))
            else reply == InvalidLogin
  {
    var a := Account(p.tenant, p.user);
    if a in w.users { EnterAnswers(st, a, w.users[a], code, p.remember, w); }
  }

  /** The answer to a choice: that of the candidate's gate, its record and tenant looked up again. */
  ghost predicate ChoiceAnswered(st: State, after: State, reply: Reply, a: Account, remember: bool, code: string, w: World) {
    if a in w.users && !w.users[a].disabled && a.tenant in w.tenants && !w.tenants[a.tenant].disabled
    then reply == GateReply(st, a, w.users[a], code, remember, w)
         && (reply.NeedsTotp? ==> Waits(after, w.freshToken, a, remember, w.now))
    else reply == InvalidLogin
  }

  lemma SelectionChooses(st: State, slug: string, token: string, w: World, c: Pending.Candidate)
    requires Live(st, token, w.now) && FirstOfSlug(st.pending[token].candidates, slug, c)
    ensures var (after, p) := PendingOp(st, Pending.ConsumeSelection(slug), token, w);
            p == Some(Pending.Chosen(c, st.pending[token].remember)) && after.counters == st.counters
  {
    FirstIs(st.pending[token].candidates, slug, c);
  }

  lemma TenantStepAnswers(st: State, r: LoginReq, w: World, c: Pending.Candidate)
    requires Live(st, r.token, w.now) && FirstOfSlug(st.pending[r.token].candidates, Trim(r.slug), c)
    ensures var (after, reply) := TenantStep(st, r, w);
            ChoiceAnswered(st, after, reply, AccountOf(c), st.pending[r.token].remember, r.code, w)
  {
    SelectionChooses(st, Trim(r.slug), r.token, w, c);
    var (st1, p) := PendingOp(st, Pending.ConsumeSelection(Trim(r.slug)), r.token, w);
    ChosenAnswers(st1, p.value, r.code, w);
  }

  /** A choice offered with a live token is answered by the gate of the candidate chosen; the session is
      remembered exactly if the first request asked for it. */
  lemma ChoiceAnswers(st: State, r: LoginReq, w: World, c: Pending.Candidate)
    requires w.initialized && r.token != "" && r.slug != "" && Limit(st, "login:" + r.ip, 20, w).1
    requires Live(st, r.token, w.now) && FirstOfSlug(st.pending[r.token].candidates, Trim(r.slug), c)
    ensures var (after, reply) := HandleLogin(st, r, w);
            ChoiceAnswered(st, after, reply, AccountOf(c), st.pending[r.token].remember, r.code, w)
  {
    TenantStepAnswers(Limit(st, "login:" + r.ip, 20, w).0, r, w, c);
  }
}
