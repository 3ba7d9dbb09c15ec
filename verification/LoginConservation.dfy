/** Every session uses up a first factor of its own: tokens and sessions never outnumber accepted first factors. */
module LoginConservation {
  import opened Prelude
  import opened LoginModel
  import opened LoginRuns
  import Pending = PendingLogins

  /** Sessions minted, and tokens that could still lead to one. */
  function Weight(st: State): nat { |st.sessions| + |st.pending| }

  ghost predicate FactorAt(t: Trace, n: nat)
    requires t.Valid() && n < |t.events|
  {
    exists a :: AcceptedAt(t, n, a)
  }

  /** How many of the first `n` events are accepted first factors. */
  ghost function FirstFactors(t: Trace, n: nat): nat
    requires t.Valid() && n <= |t.events|
  {
    if n == 0 then 0 else FirstFactors(t, n - 1) + (if FactorAt(t, n - 1) then 1 else 0)
  }

  lemma {:induction false} SubsetSmaller<T>(a: set<T>, b: set<T>)
    requires a <= b
    ensures |a| <= |b|
  {
    if x :| x in a {
      SubsetSmaller(a - {x}, b - {x});
    }
  }

  lemma PruneShrinks(m: Pending.Tokens, now: Time)
    ensures |Pending.Prune(m, now)| <= |m|
  {
    SubsetSmaller(Pending.Prune(m, now).Keys, m.Keys);
    assert |Pending.Prune(m, now)| == |Pending.Prune(m, now).Keys| && |m| == |m.Keys|;
  }

  lemma RemovedShrinks(m: Pending.Tokens, token: string)
    ensures |m - {token}| == if token in m then |m| - 1 else |m|
  {
    assert |m - {token}| == |(m - {token}).Keys| && (m - {token}).Keys == m.Keys - {token};
  }

  /** Issuing adds at most one token; a success takes one away. */
  lemma PendingOpWeight(st: State, call: Pending.Call, token: string, w: World)
    ensures var (after, p) := PendingOp(st, call, token, w);
            && after.sessions == st.sessions
            && (call.Issue? || call.IssueSelection? ==> |after.pending| <= |st.pending| + 1)
            && (call.ConsumeSelection? || call.Consume? ==> |after.pending| + (if p.Some? then 1 else 0) <= |st.pending|)
  {
    PruneShrinks(st.pending, w.now);
    RemovedShrinks(Pending.Prune(st.pending, w.now), token);
  }

  lemma EnterWeight(st: State, a: Account, info: UserInfo, code: string, remember: bool, w: World)
    ensures Weight(Enter(st, a, info, code, remember, w).0) <= Weight(st) + 1
  {
    if info.totpEnabled && Digits(Trim(code)) == "" {
      PendingOpWeight(st, Pending.Issue(a.user, a.tenant, remember), w.freshToken, w);
    }
  }

  lemma TotpStepWeight(st: State, token: string, code: string, ip: string, w: World)
    ensures Weight(TotpStep(st, token, code, ip, w).0) <= Weight(st)
  {
    var (st1, allowed) := Limit(st, "totp:" + ip, 30, w);
    if allowed {
      PendingOpWeight(st1, Pending.Consume, token, w);
      var (st2, p) := PendingOp(st1, Pending.Consume, token, w);
      if p.Some? { CheckWeight(st2, p.value, code, w); }
    }
  }

  lemma CheckWeight(st: State, p: Pending.PendingLogin, code: string, w: World)
    ensures Weight(TotpCheck(st, p, code, w).0) <= Weight(st) + 1
  {}

  lemma TenantStepWeight(st: State, req: LoginReq, w: World)
    ensures Weight(TenantStep(st, req, w).0) <= Weight(st)
  {
    var call := Pending.ConsumeSelection(Trim(req.slug));
    PendingOpWeight(st, call, req.token, w);
    var (st1, p) := PendingOp(st, call, req.token, w);
    if p.None? {
      TotpStepWeight(st1, req.token, req.code, req.ip, w);
    } else {
      ChosenWeight(st1, p.value, req.code, w);
    }
  }

  lemma ChosenWeight(st: State, p: Pending.PendingLogin, code: string, w: World)
    ensures Weight(Chosen(st, p, code, w).0) <= Weight(st) + 1
  {
    var a := Account(p.tenant, p.user);
    if a in w.users { EnterWeight(st, a, w.users[a], code, p.remember, w); }
  }

  /** A request adds at most one, and only if its first factor was accepted. */
  ghost predicate Weighed(st: State, result: (State, Reply)) {
    Weight(result.0) <= Weight(st) + if Passed(result.1) then 1 else 0
  }

  lemma TenantlessWeight(st: State, req: LoginReq, w: World)
    ensures Weighed(st, Tenantless(st, req, w))
  {
    var cs := Candidates(w, w.listed, req.username);
    CandidatesAre(w, w.listed, req.username);
    if cs != [] {
      assert cs[0] in cs;
      var a := AccountOf(cs[0]);
      PendingOpWeight(st, Pending.IssueSelection(cs, req.remember), w.freshToken, w);
      EnterWeight(st, a, w.users[a], req.code, req.remember, w);
      EnterPasses(st, a, w.users[a], req.code, req.remember, w);
    }
  }

  lemma WithSlugWeight(st: State, req: LoginReq, w: World)
    ensures Weighed(st, WithSlug(st, req, w))
  {
    var tenant := w.Tenant(req.slug);
    if tenant.Some? && !w.tenants[tenant.value].disabled {
      var t := tenant.value;
      var user := w.Find(t, req.username);
      if user.None? && (t, req.username) in w.binds {
        var a, info := Account(t, w.binds[(t, req.username)]), Provisioned(req.username);
        var st1 := st.(upserts := st.upserts + [(a, info)]);
        EnterWeight(st1, a, info, req.code, req.remember, w);
        EnterPasses(st1, a, info, req.code, req.remember, w);
      } else if user.Some? {
        var a := Account(t, user.value);
        EnterWeight(st, a, w.users[a], req.code, req.remember, w);
        EnterPasses(st, a, w.users[a], req.code, req.remember, w);
      }
    }
  }

  lemma PasskeyWeight(st: State, req: PasskeyReq, w: World)
    ensures Weighed(st, HandlePasskey(st, req, w))
  {
    var tenant := w.Tenant(req.slug);
    if tenant.Some? && w.Find(tenant.value, req.username).Some? {
      var a := Account(tenant.value, w.Find(tenant.value, req.username).value);
      EnterWeight(st, a, w.users[a], req.code, req.remember, w);
      EnterPasses(st, a, w.users[a], req.code, req.remember, w);
    }
  }

  lemma PasswordWeight(st: State, req: LoginReq, w: World)
    ensures Weighed(st, PasswordStep(st, req, w))
  {
    var (st1, allowed) := if UserKey(req) == ":" then (st, true) else Limit(st, "login:user:" + UserKey(req), 10, w);
    if allowed {
      TenantlessWeight(st1, req, w);
      WithSlugWeight(st1, req, w);
    }
  }

  lemma LoginWeight(st: State, req: LoginReq, w: World)
    ensures Weight(HandleLogin(st, req, w).0)
         <= Weight(st) + if req.token == "" && Passed(HandleLogin(st, req, w).1) then 1 else 0
  {
    if w.initialized {
      var (st1, allowed) := Limit(st, "login:" + req.ip, 20, w);
      if !allowed {
      } else if req.token != "" && req.slug != "" {
        TenantStepWeight(st1, req, w);
      } else if req.token != "" {
        TotpStepWeight(st1, req.token, req.code, req.ip, w);
      } else {
        PasswordWeight(st1, req, w);
      }
    }
  }

  lemma StepWeight(st: State, ev: Event)
    ensures Weight(Step(st, ev).0) <= Weight(st) + if !CarriesToken(ev) && Passed(Step(st, ev).1) then 1 else 0
  {
    match ev.request
    case Login(r) => LoginWeight(st, r, ev.world);
    case Passkey(r) => PasskeyWeight(st, r, ev.world);
  }

  lemma WeightNext(t: Trace, n: nat)
    requires t.Valid() && n < |t.events|
    ensures Weight(t.states[n + 1]) <= Weight(t.states[n]) + (if FactorAt(t, n) then 1 else 0)
  {
    assert t.Steps(n);
    StepWeight(t.states[n], t.events[n]);
    AcceptedIffPassed(t.states[n], t.events[n]);
    if a :| Accepted(t.states[n], t.events[n], a) { assert AcceptedAt(t, n, a); }
  }

  /** At every point of every run, sessions minted and tokens outstanding together are at most the first
      factors accepted so far: no first factor ever yields two sessions. */
  lemma {:induction false} SessionsWithinFactors(t: Trace, n: nat)
    requires t.Valid() && n <= |t.events|
    ensures |t.states[n].sessions| + |t.states[n].pending| <= FirstFactors(t, n)
  {
    if n > 0 {
      SessionsWithinFactors(t, n - 1);
      WeightNext(t, n - 1);
    }
  }
}
