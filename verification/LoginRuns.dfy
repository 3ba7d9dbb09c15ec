/** Where sessions come from, over every run of login requests. */
module LoginRuns {
  import opened Prelude
  import opened LoginCodes
  import opened LoginModel
  import Pending = PendingLogins

  datatype Event = Event(request: Request, world: World)

  function Step(st: State, ev: Event): (State, Reply) {
    match ev.request
    case Login(r) => HandleLogin(st, r, ev.world)
    case Passkey(r) => HandlePasskey(st, r, ev.world)
  }

  /** A run: the requests, the states before and after each, and the replies. */
  datatype Trace = Trace(events: seq<Event>, states: seq<State>, replies: seq<Reply>) {

    ghost predicate Steps(n: nat)
      requires n < |events| && |states| == |events| + 1 && |replies| == |events|
    {
      Step(states[n], events[n]) == (states[n + 1], replies[n]) && events[n].world.Valid()
    }

    /** It starts with nothing and follows the handlers. */
    ghost predicate Valid() {
      && |states| == |events| + 1 && |replies| == |events|
      && states[0] == START
      && forall n :: 0 <= n < |events| ==> Steps(n)
    }
  }

  function Longer(t: Trace, ev: Event, after: State, reply: Reply): Trace {
    Trace(t.events + [ev], t.states + [after], t.replies + [reply])
  }

  lemma EarlierSteps(t: Trace, ev: Event, after: State, reply: Reply, k: nat)
    requires |t.states| == |t.events| + 1 && |t.replies| == |t.events| && k < |t.events| && t.Steps(k)
    ensures Longer(t, ev, after, reply).Steps(k)
  {
    var longer := Longer(t, ev, after, reply);
    assert longer.events[k] == t.events[k] && longer.replies[k] == t.replies[k];
    assert longer.states[k] == t.states[k] && longer.states[k + 1] == t.states[k + 1];
  }

  lemma LastSteps(t: Trace, ev: Event, after: State, reply: Reply)
    requires |t.states| == |t.events| + 1 && |t.replies| == |t.events|
    requires ev.world.Valid() && Step(t.states[|t.events|], ev) == (after, reply)
    ensures Longer(t, ev, after, reply).Steps(|t.events|)
  {
    var longer, n := Longer(t, ev, after, reply), |t.events|;
    assert longer.events[n] == ev && longer.replies[n] == reply;
    assert longer.states[n] == t.states[n] && longer.states[n + 1] == after;
  }

  lemma Extended(t: Trace, ev: Event, after: State, reply: Reply)
    requires t.Valid() && ev.world.Valid() && Step(t.states[|t.events|], ev) == (after, reply)
    ensures Longer(t, ev, after, reply).Valid()
  {
    forall k | 0 <= k < |t.events| ensures Longer(t, ev, after, reply).Steps(k) { EarlierSteps(t, ev, after, reply, k); }
    LastSteps(t, ev, after, reply);
  }

  /** Any requests make a run. */
  function TraceOf(evs: seq<Event>): (t: Trace)
    requires forall i :: 0 <= i < |evs| ==> evs[i].world.Valid()
    ensures t.Valid() && t.events == evs
  {
    if evs == [] then Trace([], [START], [])
    else
      var t, ev := TraceOf(evs[..|evs| - 1]), evs[|evs| - 1];
      var (after, reply) := Step(t.states[|t.events|], ev);
      Extended(t, ev, after, reply);
      Longer(t, ev, after, reply)
  }

  // ---- First factors ------------------------------------------------------------------------

  /** An unknown user name that binds is provisioned under the id of its directory entry. */
  ghost predicate ByFirstBind(w: World, username: string, a: Account) {
    && w.Find(a.tenant, username).None? && a.tenant in w.ldap
    && (a.tenant, username) in w.binds && w.binds[(a.tenant, username)] == a.user && w.provisions
  }

  /** A known, enabled user whose password is good. */
  ghost predicate ByPassword(w: World, username: string, a: Account) {
    w.Find(a.tenant, username) == Some(a.user) && !w.users[a].disabled && Authenticates(w, a.tenant, a.user, username)
  }

  /** The request proves a first factor for the account: a password or a bind in the tenant it names, a
      password in any listed tenant if it names none, or a passkey. A request with a token is never asked. */
  ghost predicate FirstFactor(ev: Event, a: Account) {
    var w := ev.world;
    && w.initialized && a.tenant in w.tenants && !w.tenants[a.tenant].disabled
    && match ev.request
       case Login(r) =>
         && r.token == ""
         && (if Trim(r.slug) == "" then a.tenant in w.listed && Offered(w, r.username, a)
             else w.Tenant(r.slug) == Some(a.tenant) && (ByPassword(w, r.username, a) || ByFirstBind(w, r.username, a)))
       case Passkey(r) =>
         && w.Tenant(r.slug) == Some(a.tenant) && w.Find(a.tenant, r.username) == Some(a.user)
         && !w.users[a].disabled && a in w.passkeys
  }

  /** The limiter lets the request through to its first factor. */
  predicate Admitted(st: State, ev: Event) {
    match ev.request
    case Login(r) =>
      && Limit(st, "login:" + r.ip, 20, ev.world).1
      && (UserKey(r) == ":" || Limit(Limit(st, "login:" + r.ip, 20, ev.world).0, "login:user:" + UserKey(r), 10, ev.world).1)
    case Passkey(_) => true
  }

  /** A first factor accepted in this state. */
  ghost predicate Accepted(st: State, ev: Event, a: Account) { Admitted(st, ev) && FirstFactor(ev, a) }

  /** Event `i` of the run is an accepted first factor for the account. */
  ghost predicate AcceptedAt(t: Trace, i: nat, a: Account)
    requires t.Valid() && i < |t.events|
  {
    Accepted(t.states[i], t.events[i], a)
  }

  /** The accounts that may still be let in. */
  type Vouched = iset<Account>

  /** Everyone with a first factor accepted among the first `n` events. */
  ghost function VouchedBy(t: Trace, n: nat): Vouched
    requires t.Valid() && n <= |t.events|
  {
    iset a, i: nat | i < n && AcceptedAt(t, i, a) :: a
  }

  // ---- One step -----------------------------------------------------------------------------

  /** Each account a pending login stands for is vouched for; a tenant choice stands for nobody until a
      candidate is chosen. */
  ghost predicate PendingVouched(p: Pending.PendingLogin, v: Vouched) {
    if p.candidates == [] then Account(p.tenant, p.user) in v
    else p.user == "" && p.tenant == "" && forall c :: c in p.candidates ==> Account(c.tenant, c.user) in v
  }

  ghost predicate AllVouched(m: Pending.Tokens, v: Vouched) { forall t :: t in m ==> PendingVouched(m[t], v) }

  lemma PendingOpVouched(st: State, call: Pending.Call, token: string, w: World, v: Vouched)
    requires AllVouched(st.pending, v)
    requires call.Issue? ==> Account(call.tenant, call.user) in v
    requires call.IssueSelection? ==>
               call.candidates != [] && forall c :: c in call.candidates ==> Account(c.tenant, c.user) in v
    ensures AllVouched(PendingOp(st, call, token, w).0.pending, v)
    ensures PendingOp(st, call, token, w).1.Some? ==> PendingVouched(PendingOp(st, call, token, w).1.value, v)
  {
    if call.ConsumeSelection? && token in st.pending {
      Pending.FirstIsCandidate(st.pending[token].candidates, call.slug);
    }
  }

  /** The step accepted a time step for the user, beyond the last one. */
  ghost predicate Advances(st: State, after: State, u: UserId) {
    u in after.counters && (u in st.counters ==> st.counters[u] < after.counters[u])
  }

  /** TOTP memory only rises. */
  ghost predicate Rises(st: State, after: State) {
    forall u :: u in st.counters ==> u in after.counters && st.counters[u] <= after.counters[u]
  }

  /** The stored record of the account has TOTP on. */
  ghost predicate StoredTotp(w: World, a: Account) { a in w.users && w.users[a].totpEnabled }

  /** The user name is unknown in the tenant named, but binds to the id of a stored user with TOTP on. */
  ghost predicate OverlooksTotp(ev: Event) {
    match ev.request
    case Passkey(_) => false
    case Login(r) =>
      && r.token == "" && Trim(r.slug) != "" && ev.world.Tenant(r.slug).Some?
      && var t := ev.world.Tenant(r.slug).value;
      && ev.world.Find(t, r.username).None? && (t, r.username) in ev.world.binds
      && StoredTotp(ev.world, Account(t, ev.world.binds[(t, r.username)]))
  }

  /** The accounts that owe the request a time step of its own. */
  type Due = iset<Account>

  ghost function DueAt(ev: Event): Due { iset a | StoredTotp(ev.world, a) && !OverlooksTotp(ev) }

  /** What a handler may do, given who is vouched for and who owes a time step: tokens stay vouched for, TOTP
      memory only rises, and only a vouched-for account gets a session, with a new time step exactly if due. */
  ghost predicate Proper(st: State, after: State, reply: Reply, due: Due, v: Vouched) {
    && AllVouched(after.pending, v) && Rises(st, after)
    && (match reply
        case LoggedIn(s) =>
          && after.sessions == st.sessions + [s] && s.account in v
          && (Advances(st, after, s.account.user) <==> s.account in due)
        case _ => after.sessions == st.sessions)
  }

  lemma EnterProper(st: State, a: Account, info: UserInfo, code: string, remember: bool, w: World, due: Due, v: Vouched)
    requires AllVouched(st.pending, v) && a in v && (info.totpEnabled <==> a in due)
    ensures var (after, reply) := Enter(st, a, info, code, remember, w); Proper(st, after, reply, due, v)
  {
    if info.totpEnabled && Digits(Trim(code)) == "" {
      PendingOpVouched(st, Pending.Issue(a.user, a.tenant, remember), w.freshToken, w, v);
    }
  }

  /** Whoever has TOTP on in the store owes a time step. */
  ghost predicate DueByRecord(w: World, due: Due) { forall a :: a in due <==> StoredTotp(w, a) }

  lemma TotpCheckProper(st: State, p: Pending.PendingLogin, code: string, w: World, due: Due, v: Vouched)
    requires AllVouched(st.pending, v) && PendingVouched(p, v) && w.Valid() && DueByRecord(w, due)
    ensures var (after, reply) := TotpCheck(st, p, code, w); Proper(st, after, reply, due, v)
  {}

  lemma TotpStepProper(st: State, token: string, code: string, ip: string, w: World, due: Due, v: Vouched)
    requires AllVouched(st.pending, v) && w.Valid() && DueByRecord(w, due)
    ensures var (after, reply) := TotpStep(st, token, code, ip, w); Proper(st, after, reply, due, v)
  {
    var (st1, allowed) := Limit(st, "totp:" + ip, 30, w);
    if allowed {
      PendingOpVouched(st1, Pending.Consume, token, w, v);
      var (st2, p) := PendingOp(st1, Pending.Consume, token, w);
      if p.Some? { TotpCheckProper(st2, p.value, code, w, due, v); }
    }
  }

  lemma ChosenProper(st: State, p: Pending.PendingLogin, code: string, w: World, due: Due, v: Vouched)
    requires AllVouched(st.pending, v) && PendingVouched(p, v) && w.Valid() && DueByRecord(w, due)
    ensures var (after, reply) := Chosen(st, p, code, w); Proper(st, after, reply, due, v)
  {
    var a := Account(p.tenant, p.user);
    if a in w.users { EnterProper(st, a, w.users[a], code, p.remember, w, due, v); }
  }

  lemma TenantStepProper(st: State, req: LoginReq, w: World, due: Due, v: Vouched)
    requires AllVouched(st.pending, v) && w.Valid() && DueByRecord(w, due)
    ensures var (after, reply) := TenantStep(st, req, w); Proper(st, after, reply, due, v)
  {
    var call := Pending.ConsumeSelection(Trim(req.slug));
    PendingOpVouched(st, call, req.token, w, v);
    var (st1, p) := PendingOp(st, call, req.token, w);
    if p.None? {
      TotpStepProper(st1, req.token, req.code, req.ip, w, due, v);
    } else {
      ChosenProper(st1, p.value, req.code, w, due, v);
    }
  }

  lemma MissedChoiceStays(st: State, slug: string, token: string, w: World)
    requires PendingOp(st, Pending.ConsumeSelection(slug), token, w).1.None?
    ensures var after := PendingOp(st, Pending.ConsumeSelection(slug), token, w).0;
            && after.sessions == st.sessions
            && (token in after.pending ==>
                  token in st.pending && after.pending[token] == st.pending[token] && st.pending[token].candidates != [])
  {}

  lemma ChoiceIsNoAccount(st: State, token: string, code: string, ip: string, w: World, v: Vouched)
    requires w.Valid() && (token in st.pending ==> st.pending[token].candidates != [] && PendingVouched(st.pending[token], v))
    ensures var (after, reply) := TotpStep(st, token, code, ip, w);
            after.sessions == st.sessions && (reply == TooManyAttempts || reply == LoginExpired || reply == InvalidLogin)
  {}

  /** A token that offers no such choice is turned away at the code step, whatever the code. */
  lemma NoChoiceFails(st: State, req: LoginReq, w: World, v: Vouched)
    requires AllVouched(st.pending, v) && w.Valid()
    requires PendingOp(st, Pending.ConsumeSelection(Trim(req.slug)), req.token, w).1.None?
    ensures var (after, reply) := TenantStep(st, req, w);
            after.sessions == st.sessions && (reply == TooManyAttempts || reply == LoginExpired || reply == InvalidLogin)
  {
    MissedChoiceStays(st, Trim(req.slug), req.token, w);
    var st1 := PendingOp(st, Pending.ConsumeSelection(Trim(req.slug)), req.token, w).0;
    ChoiceIsNoAccount(st1, req.token, req.code, req.ip, w, v);
  }

  lemma SelectionSpends(st: State, slug: string, token: string, w: World)
    requires token in st.pending && st.pending[token].candidates == []
    ensures var (after, p) := PendingOp(st, Pending.ConsumeSelection(slug), token, w);
            p.None? && token !in after.pending && after.sessions == st.sessions
  {}

  lemma MissingExpires(st: State, token: string, code: string, ip: string, w: World)
    requires token !in st.pending
    ensures var (after, reply) := TotpStep(st, token, code, ip, w);
            token !in after.pending && after.sessions == st.sessions && (reply == TooManyAttempts || reply == LoginExpired)
  {}

  /** A token that waits for a code is lost when a tenant slug is sent along with it. */
  lemma CodeTokenSpent(st: State, req: LoginReq, w: World)
    requires req.token in st.pending && st.pending[req.token].candidates == []
    ensures var (after, reply) := TenantStep(st, req, w);
            req.token !in after.pending && after.sessions == st.sessions && (reply == TooManyAttempts || reply == LoginExpired)
  {
    SelectionSpends(st, Trim(req.slug), req.token, w);
    var st1 := PendingOp(st, Pending.ConsumeSelection(Trim(req.slug)), req.token, w).0;
    MissingExpires(st1, req.token, req.code, req.ip, w);
  }

  lemma TenantlessProper(st: State, req: LoginReq, w: World, v: Vouched)
    requires w.initialized && req.token == "" && Trim(req.slug) == "" && AllVouched(st.pending, v)
    requires forall a :: FirstFactor(Event(Login(req), w), a) ==> a in v
    ensures var (after, reply) := Tenantless(st, req, w); Proper(st, after, reply, DueAt(Event(Login(req), w)), v)
  {
    var cs := Candidates(w, w.listed, req.username);
    CandidatesAre(w, w.listed, req.username);
    forall c | c in cs ensures Account(c.tenant, c.user) in v {
      assert FirstFactor(Event(Login(req), w), AccountOf(c));
    }
    if |cs| > 1 {
      PendingOpVouched(st, Pending.IssueSelection(cs, req.remember), w.freshToken, w, v);
    } else if |cs| == 1 {
      assert cs[0] in cs;
      var a := AccountOf(cs[0]);
      assert StoredTotp(w, a) <==> w.users[a].totpEnabled;
      EnterProper(st, a, w.users[a], req.code, req.remember, w, DueAt(Event(Login(req), w)), v);
    }
  }

  lemma WithSlugProper(st: State, req: LoginReq, w: World, v: Vouched)
    requires w.initialized && req.token == "" && Trim(req.slug) != "" && AllVouched(st.pending, v)
    requires forall a :: FirstFactor(Event(Login(req), w), a) ==> a in v
    ensures var (after, reply) := WithSlug(st, req, w); Proper(st, after, reply, DueAt(Event(Login(req), w)), v)
  {
    var ev := Event(Login(req), w);
    var tenant := w.Tenant(req.slug);
    if tenant.Some? && !w.tenants[tenant.value].disabled {
      var t := tenant.value;
      var user := w.Find(t, req.username);
      if user.None? && t in w.ldap && (t, req.username) in w.binds && w.provisions {
        var a, info := Account(t, w.binds[(t, req.username)]), Provisioned(req.username);
        assert FirstFactor(ev, a);
        EnterProper(st.(upserts := st.upserts + [(a, info)]), a, info, req.code, req.remember, w, DueAt(ev), v);
      } else if user.Some? && ByPassword(w, req.username, Account(t, user.value)) {
        var a := Account(t, user.value);
        assert FirstFactor(ev, a) && (StoredTotp(w, a) <==> w.users[a].totpEnabled);
        EnterProper(st, a, w.users[a], req.code, req.remember, w, DueAt(ev), v);
      }
    }
  }

  lemma PasswordStepProper(st0: State, st: State, req: LoginReq, w: World, v: Vouched)
    requires w.initialized && req.token == "" && Limit(st0, "login:" + req.ip, 20, w) == (st, true)
    requires AllVouched(st.pending, v)
    requires forall a :: Accepted(st0, Event(Login(req), w), a) ==> a in v
    ensures var (after, reply) := PasswordStep(st, req, w); Proper(st, after, reply, DueAt(Event(Login(req), w)), v)
  {
    var (st1, allowed) := if UserKey(req) == ":" then (st, true) else Limit(st, "login:user:" + UserKey(req), 10, w);
    if allowed {
      assert Admitted(st0, Event(Login(req), w));
      forall a | FirstFactor(Event(Login(req), w), a) ensures a in v { assert Accepted(st0, Event(Login(req), w), a); }
      if Trim(req.slug) == "" {
        TenantlessProper(st1, req, w, v);
      } else {
        WithSlugProper(st1, req, w, v);
      }
    }
  }

  lemma LoginProper(st: State, req: LoginReq, w: World, v: Vouched)
    requires AllVouched(st.pending, v) && w.Valid()
    requires forall a :: Accepted(st, Event(Login(req), w), a) ==> a in v
    ensures var (after, reply) := HandleLogin(st, req, w); Proper(st, after, reply, DueAt(Event(Login(req), w)), v)
  {
    var ev := Event(Login(req), w);
    if w.initialized {
      var (st1, allowed) := Limit(st, "login:" + req.ip, 20, w);
      if !allowed {
      } else if req.token != "" && req.slug != "" {
        TenantStepProper(st1, req, w, DueAt(ev), v);
      } else if req.token != "" {
        TotpStepProper(st1, req.token, req.code, req.ip, w, DueAt(ev), v);
      } else {
        PasswordStepProper(st, st1, req, w, v);
      }
    }
  }

  lemma PasskeyProper(st: State, req: PasskeyReq, w: World, v: Vouched)
    requires AllVouched(st.pending, v)
    requires forall a :: Accepted(st, Event(Passkey(req), w), a) ==> a in v
    ensures var (after, reply) := HandlePasskey(st, req, w); Proper(st, after, reply, DueAt(Event(Passkey(req), w)), v)
  {
    var tenant := w.Tenant(req.slug);
    if w.initialized && tenant.Some? && !w.tenants[tenant.value].disabled {
      var user := w.Find(tenant.value, req.username);
      if user.Some? && !w.users[Account(tenant.value, user.value)].disabled && Account(tenant.value, user.value) in w.passkeys {
        var a := Account(tenant.value, user.value);
        assert Accepted(st, Event(Passkey(req), w), a) && (StoredTotp(w, a) <==> w.users[a].totpEnabled);
        EnterProper(st, a, w.users[a], req.code, req.remember, w, DueAt(Event(Passkey(req), w)), v);
      }
    }
  }

  /** Every request is proper once its own accepted first factor is vouched for. */
  lemma StepProper(st: State, ev: Event, v: Vouched)
    requires AllVouched(st.pending, v) && ev.world.Valid()
    requires forall a :: Accepted(st, ev, a) ==> a in v
    ensures Proper(st, Step(st, ev).0, Step(st, ev).1, DueAt(ev), v)
  {
    match ev.request
    case Login(r) => LoginProper(st, r, ev.world, v);
    case Passkey(r) => PasskeyProper(st, r, ev.world, v);
  }

  // ---- What acceptance and overlooking come to ----------------------------------------------

  /** The reply of a request whose first factor was accepted: a session, or the next thing to ask for. */
  predicate Passed(reply: Reply) { reply.LoggedIn? || reply.NeedsTotp? || reply.NeedsTenant? || reply.InvalidTotp? }

  predicate CarriesToken(ev: Event) { ev.request.Login? && ev.request.login.token != "" }

  lemma EnterPasses(st: State, a: Account, info: UserInfo, code: string, remember: bool, w: World)
    ensures Passed(Enter(st, a, info, code, remember, w).1)
  {}

  lemma TenantlessPasses(st: State, req: LoginReq, w: World)
    ensures Passed(Tenantless(st, req, w).1) <==> exists a: Account :: a.tenant in w.listed && Offered(w, req.username, a)
  {
    var cs := Candidates(w, w.listed, req.username);
    CandidatesAre(w, w.listed, req.username);
    if cs != [] {
      assert cs[0] in cs && Offered(w, req.username, AccountOf(cs[0]));
      if |cs| == 1 { EnterPasses(st, AccountOf(cs[0]), w.users[AccountOf(cs[0])], req.code, req.remember, w); }
    }
  }

  lemma WithSlugPasses(st: State, req: LoginReq, w: World)
    ensures Passed(WithSlug(st, req, w).1) <==>
              exists a: Account :: a.tenant in w.tenants && !w.tenants[a.tenant].disabled && w.Tenant(req.slug) == Some(a.tenant)
                && (ByPassword(w, req.username, a) || ByFirstBind(w, req.username, a))
  {
    var tenant := w.Tenant(req.slug);
    if tenant.Some? {
      var t := tenant.value;
      var user := w.Find(t, req.username);
      if user.Some? {
        var a := Account(t, user.value);
        EnterPasses(st, a, w.users[a], req.code, req.remember, w);
        assert ByPassword(w, req.username, a) <==>
            Authenticates(w, t, user.value, req.username) && !w.users[a].disabled;
      } else if (t, req.username) in w.binds {
        var a, info := Account(t, w.binds[(t, req.username)]), Provisioned(req.username);
        EnterPasses(st.(upserts := st.upserts + [(a, info)]), a, info, req.code, req.remember, w);
        assert ByFirstBind(w, req.username, a) <==> t in w.ldap && w.provisions;
      }
    }
  }

  lemma LoginPasses(st: State, req: LoginReq, w: World)
    requires req.token == ""
    ensures (exists a :: Accepted(st, Event(Login(req), w), a)) <==> Passed(HandleLogin(st, req, w).1)
  {
    var ev := Event(Login(req), w);
    if w.initialized && Admitted(st, ev) {
      var st1 := Limit(st, "login:" + req.ip, 20, w).0;
      var st2 := if UserKey(req) == ":" then st1 else Limit(st1, "login:user:" + UserKey(req), 10, w).0;
      TenantlessPasses(st2, req, w);
      WithSlugPasses(st2, req, w);
      if Trim(req.slug) == "" {
        assert forall a: Account :: a.tenant in w.listed && Offered(w, req.username, a) <==> Accepted(st, ev, a);
      } else {
        assert forall a :: Accepted(st, ev, a) <==>
            a.tenant in w.tenants && !w.tenants[a.tenant].disabled && w.Tenant(req.slug) == Some(a.tenant)
            && (ByPassword(w, req.username, a) || ByFirstBind(w, req.username, a));
      }
    }
  }

  lemma PasskeyPasses(st: State, req: PasskeyReq, w: World)
    ensures (exists a :: Accepted(st, Event(Passkey(req), w), a)) <==> Passed(HandlePasskey(st, req, w).1)
  {
    var tenant := w.Tenant(req.slug);
    if tenant.Some? && w.Find(tenant.value, req.username).Some? {
      var a := Account(tenant.value, w.Find(tenant.value, req.username).value);
      EnterPasses(st, a, w.users[a], req.code, req.remember, w);
      assert Accepted(st, Event(Passkey(req), w), a) <==>
          w.initialized && !w.tenants[a.tenant].disabled && !w.users[a].disabled && a in w.passkeys;
    }
  }

  /** A first factor is accepted for some account exactly when the handler lets the request past it. */
  lemma AcceptedIffPassed(st: State, ev: Event)
    ensures (exists a :: Accepted(st, ev, a)) <==> !CarriesToken(ev) && Passed(Step(st, ev).1)
  {
    match ev.request
    case Login(r) => if r.token == "" { LoginPasses(st, r, ev.world); }
    case Passkey(r) => PasskeyPasses(st, r, ev.world);
  }

  /** The account an overlooking request is let in as. */
  function BoundAccount(r: LoginReq, w: World): Account
    requires w.Tenant(r.slug).Some? && (w.Tenant(r.slug).value, r.username) in w.binds
  {
    Account(w.Tenant(r.slug).value, w.binds[(w.Tenant(r.slug).value, r.username)])
  }

  lemma WithSlugOverlooks(st: State, r: LoginReq, w: World)
    requires OverlooksTotp(Event(Login(r), w)) && WithSlug(st, r, w).1.LoggedIn?
    ensures WithSlug(st, r, w).1.session.account == BoundAccount(r, w)
    ensures WithSlug(st, r, w).0.counters == st.counters
    ensures WithSlug(st, r, w).0.upserts == st.upserts + [(BoundAccount(r, w), Provisioned(r.username))]
  {}

  /** Whoever an overlooking request lets in has TOTP on in the store. No time step is looked at, and a record
      without TOTP goes to the store under the same id. */
  lemma OverlookedIs(st: State, ev: Event)
    requires OverlooksTotp(ev) && Step(st, ev).1.LoggedIn?
    ensures StoredTotp(ev.world, Step(st, ev).1.session.account) && Step(st, ev).0.counters == st.counters
    ensures Step(st, ev).0.upserts == st.upserts + [(Step(st, ev).1.session.account, Provisioned(ev.request.login.username))]
  {
    var r, w := ev.request.login, ev.world;
    var st1 := Limit(st, "login:" + r.ip, 20, w).0;
    var st2 := if UserKey(r) == ":" then st1 else Limit(st1, "login:user:" + UserKey(r), 10, w).0;
    WithSlugOverlooks(st2, r, w);
  }

  lemma AdmittedAtStart(ev: Event)
    ensures Admitted(START, ev)
  {}

  /** The stored user "u" of tenant "x" has TOTP on; the unknown name "al2" binds to the same id. */
  function SharedId(): World {
    World(true, 0, "", map["x" := TenantInfo("x", "x", false)], ["x"], map["x" := "x"],
          map[Account("x", "u") := UserInfo("al", Ldap, false, true, "key")], map[("x", "al") := "u"],
          {}, {"x"}, map[("x", "al2") := "u"], true, map[], {})
  }

  lemma SharedIdAccepted(req: LoginReq, w: World)
    requires req == LoginReq("", "x", "al2", "", "", false) && w == SharedId()
    ensures w.Valid() && OverlooksTotp(Event(Login(req), w)) && Accepted(START, Event(Login(req), w), Account("x", "u"))
  {
    TrimKeeps("x");
    assert |"al2"| != |"al"|;
    AdmittedAtStart(Event(Login(req), w));
  }

  lemma OverlookedBySlug(st: State, r: LoginReq, w: World)
    requires OverlooksTotp(Event(Login(r), w)) && Passed(WithSlug(st, r, w).1)
    ensures WithSlug(st, r, w).1.LoggedIn?
  {}

  lemma OverlookedLetIn(st: State, r: LoginReq, w: World)
    requires OverlooksTotp(Event(Login(r), w)) && Passed(HandleLogin(st, r, w).1)
    ensures HandleLogin(st, r, w).1.LoggedIn?
  {
    var st1 := Limit(st, "login:" + r.ip, 20, w).0;
    var (st2, allowed) := if UserKey(r) == ":" then (st1, true) else Limit(st1, "login:user:" + UserKey(r), 10, w);
    if Passed(WithSlug(st2, r, w).1) { OverlookedBySlug(st2, r, w); }
  }

  /** A stored user with TOTP on is let in under an unknown name, without a code. */
  lemma FirstBindOverlooksTotp()
    ensures exists ev: Event :: ev.world.Valid() && OverlooksTotp(ev) && Step(START, ev).1.LoggedIn?
  {
    FirstBindLetIn(LoginReq("", "x", "al2", "", "", false), SharedId());
  }

  lemma FirstBindLetIn(req: LoginReq, w: World)
    requires req == LoginReq("", "x", "al2", "", "", false) && w == SharedId()
    ensures exists ev: Event :: ev.world.Valid() && OverlooksTotp(ev) && Step(START, ev).1.LoggedIn?
  {
    SharedIdAccepted(req, w);
    LoginPasses(START, req, w);
    OverlookedLetIn(START, req, w);
    var ev := Event(Login(req), w);
    assert ev.world.Valid() && OverlooksTotp(ev) && Step(START, ev).1.LoggedIn?;
  }

  // ---- Whole runs ---------------------------------------------------------------------------

  lemma StillVouched(m: Pending.Tokens, v: Vouched, more: Vouched)
    requires AllVouched(m, v) && v <= more
    ensures AllVouched(m, more)
  {}

  lemma {:induction false} RunVouched(t: Trace, n: nat)
    requires t.Valid() && n <= |t.events|
    ensures AllVouched(t.states[n].pending, VouchedBy(t, n))
  {
    if n > 0 {
      RunVouched(t, n - 1);
      ProperNext(t, n - 1);
    }
  }

  lemma ProperNext(t: Trace, n: nat)
    requires t.Valid() && n < |t.events| && AllVouched(t.states[n].pending, VouchedBy(t, n))
    ensures Proper(t.states[n], t.states[n + 1], t.replies[n], DueAt(t.events[n]), VouchedBy(t, n + 1))
  {
    var v := VouchedBy(t, n + 1);
    StillVouched(t.states[n].pending, VouchedBy(t, n), v);
    forall a | Accepted(t.states[n], t.events[n], a) ensures a in v { assert AcceptedAt(t, n, a); }
    assert t.Steps(n);
    StepProper(t.states[n], t.events[n], v);
  }

  /** Event `n` of a run is proper. */
  lemma ProperAt(t: Trace, n: nat)
    requires t.Valid() && n < |t.events|
    ensures Proper(t.states[n], t.states[n + 1], t.replies[n], DueAt(t.events[n]), VouchedBy(t, n + 1))
  {
    RunVouched(t, n);
    ProperNext(t, n);
  }

  /** Event `n` accepts time step `counter` for the user. */
  ghost predicate AcceptsCounter(t: Trace, n: nat, u: UserId, counter: int)
    requires t.Valid() && n < |t.events|
  {
    var st, after := t.states[n], t.states[n + 1];
    u in after.counters && after.counters[u] == counter && (u !in st.counters || st.counters[u] != counter)
  }

  lemma {:induction false} CountersRise(t: Trace, m: nat, n: nat)
    requires t.Valid() && m <= n <= |t.events|
    ensures Rises(t.states[m], t.states[n])
  {
    if m < n {
      CountersRise(t, m, n - 1);
      ProperAt(t, n - 1);
    }
  }

  /** The counter is beyond every one accepted for the user before event `n`. */
  ghost predicate BeyondAll(t: Trace, n: nat, u: UserId, counter: int)
    requires t.Valid() && n < |t.events|
  {
    forall m: nat, c :: m < n && AcceptsCounter(t, m, u, c) ==> c < counter
  }

  lemma NewCounter(t: Trace, n: nat, u: UserId)
    requires t.Valid() && n < |t.events| && Advances(t.states[n], t.states[n + 1], u)
    ensures AcceptsCounter(t, n, u, t.states[n + 1].counters[u]) && BeyondAll(t, n, u, t.states[n + 1].counters[u])
  {
    forall m: nat, c | m < n && AcceptsCounter(t, m, u, c) ensures c < t.states[n + 1].counters[u] {
      CountersRise(t, m + 1, n);
    }
  }

  /** Event `n` has a time step accepted for the user, beyond all accepted before. */
  ghost predicate TimeStepAccepted(t: Trace, n: nat, u: UserId)
    requires t.Valid() && n < |t.events|
  {
    exists counter :: AcceptsCounter(t, n, u, counter) && BeyondAll(t, n, u, counter)
  }

  /** The code sent with a request. */
  function CodeOf(ev: Event): string { match ev.request case Login(r) => r.code case Passkey(r) => r.code }

  /** The TOTP memory moves only by a code that is valid for a stored secret. */
  lemma StepBacked(st: State, ev: Event)
    ensures Backed(st, Step(st, ev).0, Step(st, ev).1, ev.world, CodeOf(ev))
  {
    match ev.request
    case Login(r) => LoginBacked(st, r, ev.world);
    case Passkey(r) => PasskeyBacked(st, r, ev.world);
  }

  /** Event `n` was sent with a code valid for the account's stored secret at exactly the step now remembered
      for its user, and changed nothing else in the TOTP memory. */
  ghost predicate CodeHonoured(t: Trace, n: nat, a: Account)
    requires t.Valid() && n < |t.events|
  {
    var after := t.states[n + 1];
    a.user in after.counters
    && CodeAccepted(t.states[n], after, t.events[n].world, CodeOf(t.events[n]), a, after.counters[a.user])
  }

  /** The account had a first factor accepted in this run, no later than event `n`; and event `n` has a new
      time step accepted for it exactly if its stored user has TOTP on and is not overlooked: then by a valid
      code of its own. */
  ghost predicate Justified(t: Trace, n: nat, s: Session)
    requires t.Valid() && n < |t.events|
  {
    && (exists i: nat :: i <= n && AcceptedAt(t, i, s.account))
    && (TimeStepAccepted(t, n, s.account.user) <==> StoredTotp(t.events[n].world, s.account) && !OverlooksTotp(t.events[n]))
    && (TimeStepAccepted(t, n, s.account.user) ==> CodeHonoured(t, n, s.account))
  }

  lemma AdvanceIsHonoured(t: Trace, n: nat)
    requires t.Valid() && n < |t.events| && t.replies[n].LoggedIn?
    requires Advances(t.states[n], t.states[n + 1], t.replies[n].session.account.user)
    ensures CodeHonoured(t, n, t.replies[n].session.account)
  {
    assert t.Steps(n);
    StepBacked(t.states[n], t.events[n]);
  }

  /** The code sent with the event is valid for no stored secret. */
  predicate CodeIsWrong(ev: Event) {
    forall a :: a in ev.world.users && ev.world.users[a].totpEnabled ==>
      (ev.world.users[a].totpSecret, Digits(Trim(CodeOf(ev)))) !in ev.world.codes
  }

  /** A wrong code moves no time step, and lets nobody in who owes one. */
  lemma WrongCodeStops(t: Trace, n: nat)
    requires t.Valid() && n < |t.events| && CodeIsWrong(t.events[n])
    ensures t.states[n + 1].counters == t.states[n].counters
    ensures t.replies[n].LoggedIn? ==> !StoredTotp(t.events[n].world, t.replies[n].session.account) || OverlooksTotp(t.events[n])
  {
    assert t.Steps(n);
    StepBacked(t.states[n], t.events[n]);
    if t.replies[n].LoggedIn? { Provenance(t, n); }
  }

  /** Every session minted is justified, and only a successful login mints one. */
  lemma Provenance(t: Trace, n: nat)
    requires t.Valid() && n < |t.events|
    ensures match t.replies[n]
            case LoggedIn(s) => t.states[n + 1].sessions == t.states[n].sessions + [s] && Justified(t, n, s)
            case _ => t.states[n + 1].sessions == t.states[n].sessions
  {
    ProperAt(t, n);
    match t.replies[n]
    case LoggedIn(s) =>
      var i: nat :| i < n + 1 && AcceptedAt(t, i, s.account);
      var u := s.account.user;
      if Advances(t.states[n], t.states[n + 1], u) {
        NewCounter(t, n, u);
        AdvanceIsHonoured(t, n);
      }
      assert TimeStepAccepted(t, n, u) ==> Advances(t.states[n], t.states[n + 1], u);
    case _ =>
  }

  /** A stored user with TOTP on is never let in without a new time step, exactly if no unknown user name
      is bound to such a user's id. */
  lemma TotpHonouredIff(t: Trace, n: nat)
    requires t.Valid() && n < |t.events| && t.replies[n].LoggedIn?
    ensures var a := t.replies[n].session.account;
            (StoredTotp(t.events[n].world, a) ==> TimeStepAccepted(t, n, a.user))
              <==> !OverlooksTotp(t.events[n])
  {
    Provenance(t, n);
    assert t.Steps(n);
    if OverlooksTotp(t.events[n]) { OverlookedIs(t.states[n], t.events[n]); }
  }

  /** Sessions appear no other way: each one in the log was minted by some request. */
  lemma {:induction false} EverySessionMinted(t: Trace, n: nat, k: nat)
    requires t.Valid() && n <= |t.events| && k < |t.states[n].sessions|
    ensures exists i: nat :: i < n && |t.states[i].sessions| == k && t.replies[i] == LoggedIn(t.states[n].sessions[k])
  {
    if n > 0 {
      Provenance(t, n - 1);
      if k < |t.states[n - 1].sessions| {
        EverySessionMinted(t, n - 1, k);
      }
    }
  }
}
