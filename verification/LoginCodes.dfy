/** TOTP codes: only a code valid for the stored secret moves a user's time step, and to exactly its own. */
module LoginCodes {
  import opened Prelude
  import opened LoginModel
  import Pending = PendingLogins

  /** Normalising a code keeps its digits, in order, and drops everything else. */
  lemma {:induction false} DigitsAre(s: string, t: string)
    ensures Digits(s + t) == Digits(s) + Digits(t)
    ensures forall c :: Digits([c]) == if '0' <= c <= '9' then [c] else ""
  {
    if s == "" {
      assert s + t == t;
    } else {
      assert (s + t)[1..] == s[1..] + t;
      DigitsAre(s[1..], t);
    }
  }

  /** The code, digits only, is valid for the account's stored secret at this time step. */
  predicate ValidFor(w: World, a: Account, code: string, step: int) {
    && a in w.users && w.users[a].totpEnabled
    && (w.users[a].totpSecret, Digits(Trim(code))) in w.codes && w.codes[(w.users[a].totpSecret, Digits(Trim(code)))] == step
  }

  /** The time step is beyond the last one accepted for the user. */
  predicate NewStep(st: State, u: UserId, step: int) { u in st.counters ==> st.counters[u] < step }

  /** One account's code was accepted, and nothing else in the TOTP memory changed. */
  ghost predicate CodeAccepted(st: State, after: State, w: World, code: string, a: Account, step: int) {
    ValidFor(w, a, code, step) && NewStep(st, a.user, step) && after.counters == st.counters[a.user := step]
  }

  /** TOTP memory stays, or moves by the code of one account, and only that account gets a session then. */
  ghost predicate Backed(st: State, after: State, reply: Reply, w: World, code: string) {
    || after.counters == st.counters
    || exists a, step :: CodeAccepted(st, after, w, code, a, step) && (reply.LoggedIn? ==> reply.session.account == a)
  }

  lemma EnterBacked(st: State, a: Account, info: UserInfo, code: string, remember: bool, w: World)
    requires info.totpEnabled ==> a in w.users && w.users[a] == info
    ensures var (after, reply) := Enter(st, a, info, code, remember, w); Backed(st, after, reply, w, code)
  {
    var (after, reply) := Enter(st, a, info, code, remember, w);
    if after.counters != st.counters {
      assert CodeAccepted(st, after, w, code, a, after.counters[a.user]);
    }
  }

  lemma TotpCheckBacked(st: State, p: Pending.PendingLogin, code: string, w: World)
    ensures var (after, reply) := TotpCheck(st, p, code, w); Backed(st, after, reply, w, code)
  {
    var (after, reply) := TotpCheck(st, p, code, w);
    var a := Account(p.tenant, p.user);
    if after.counters != st.counters {
      assert CodeAccepted(st, after, w, code, a, after.counters[a.user]);
    }
  }

  /** Calls before the check leave the TOTP memory alone. */
  lemma BackedEarlier(st0: State, st: State, after: State, reply: Reply, w: World, code: string)
    requires st0.counters == st.counters && Backed(st, after, reply, w, code)
    ensures Backed(st0, after, reply, w, code)
  {
    if after.counters != st.counters {
      var a, step :| CodeAccepted(st, after, w, code, a, step) && (reply.LoggedIn? ==> reply.session.account == a);
      assert CodeAccepted(st0, after, w, code, a, step);
    }
  }

  lemma TotpStepBacked(st: State, token: string, code: string, ip: string, w: World)
    ensures var (after, reply) := TotpStep(st, token, code, ip, w); Backed(st, after, reply, w, code)
  {
    var (st1, allowed) := Limit(st, "totp:" + ip, 30, w);
    if allowed {
      var (st2, p) := PendingOp(st1, Pending.Consume, token, w);
      if p.Some? {
        TotpCheckBacked(st2, p.value, code, w);
        BackedEarlier(st, st2, TotpCheck(st2, p.value, code, w).0, TotpCheck(st2, p.value, code, w).1, w, code);
      }
    }
  }

  lemma ChosenBacked(st: State, p: Pending.PendingLogin, code: string, w: World)
    ensures var (after, reply) := Chosen(st, p, code, w); Backed(st, after, reply, w, code)
  {
    var a := Account(p.tenant, p.user);
    if a in w.users { EnterBacked(st, a, w.users[a], code, p.remember, w); }
  }

  lemma TenantStepBacked(st: State, req: LoginReq, w: World)
    ensures var (after, reply) := TenantStep(st, req, w); Backed(st, after, reply, w, req.code)
  {
    var (st1, p) := PendingOp(st, Pending.ConsumeSelection(Trim(req.slug)), req.token, w);
    if p.None? {
      TotpStepBacked(st1, req.token, req.code, req.ip, w);
    } else {
      ChosenBacked(st1, p.value, req.code, w);
    }
    BackedEarlier(st, st1, TenantStep(st, req, w).0, TenantStep(st, req, w).1, w, req.code);
  }

  lemma TenantlessBacked(st: State, req: LoginReq, w: World)
    ensures var (after, reply) := Tenantless(st, req, w); Backed(st, after, reply, w, req.code)
  {
    var cs := Candidates(w, w.listed, req.username);
    CandidatesAre(w, w.listed, req.username);
    if |cs| == 1 {
      assert cs[0] in cs;
      EnterBacked(st, AccountOf(cs[0]), w.users[AccountOf(cs[0])], req.code, req.remember, w);
    }
  }

  lemma WithSlugBacked(st: State, req: LoginReq, w: World)
    ensures var (after, reply) := WithSlug(st, req, w); Backed(st, after, reply, w, req.code)
  {
    var tenant := w.Tenant(req.slug);
    if tenant.Some? && !w.tenants[tenant.value].disabled {
      var t := tenant.value;
      var user := w.Find(t, req.username);
      if user.Some? {
        EnterBacked(st, Account(t, user.value), w.users[Account(t, user.value)], req.code, req.remember, w);
      } else if (t, req.username) in w.binds {
        var a, info := Account(t, w.binds[(t, req.username)]), Provisioned(req.username);
        EnterBacked(st.(upserts := st.upserts + [(a, info)]), a, info, req.code, req.remember, w);
      }
    }
  }

  lemma LoginBacked(st: State, req: LoginReq, w: World)
    ensures var (after, reply) := HandleLogin(st, req, w); Backed(st, after, reply, w, req.code)
  {
    if w.initialized {
      var (st1, allowed) := Limit(st, "login:" + req.ip, 20, w);
      if allowed {
        var (after, reply) := HandleLogin(st, req, w);
        if req.token != "" && req.slug != "" {
          TenantStepBacked(st1, req, w);
          BackedEarlier(st, st1, after, reply, w, req.code);
        } else if req.token != "" {
          TotpStepBacked(st1, req.token, req.code, req.ip, w);
          BackedEarlier(st, st1, after, reply, w, req.code);
        } else {
          PasswordStepBacked(st1, req, w);
          BackedEarlier(st, st1, after, reply, w, req.code);
        }
      }
    }
  }

  lemma PasswordStepBacked(st: State, req: LoginReq, w: World)
    ensures var (after, reply) := PasswordStep(st, req, w); Backed(st, after, reply, w, req.code)
  {
    var (st1, allowed) := if UserKey(req) == ":" then (st, true) else Limit(st, "login:user:" + UserKey(req), 10, w);
    if allowed {
      TenantlessBacked(st1, req, w);
      WithSlugBacked(st1, req, w);
      BackedEarlier(st, st1, PasswordStep(st, req, w).0, PasswordStep(st, req, w).1, w, req.code);
    }
  }

  lemma PasskeyBacked(st: State, req: PasskeyReq, w: World)
    ensures var (after, reply) := HandlePasskey(st, req, w); Backed(st, after, reply, w, req.code)
  {
    var tenant := w.Tenant(req.slug);
    if tenant.Some? && w.Find(tenant.value, req.username).Some? {
      var a := Account(tenant.value, w.Find(tenant.value, req.username).value);
      EnterBacked(st, a, w.users[a], req.code, req.remember, w);
    }
  }
}
