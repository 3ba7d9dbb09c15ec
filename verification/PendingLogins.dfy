/** Pending-login tokens: issued for five minutes, consumed at most once, pruned on every call. */
module PendingLogins {
  import opened Prelude

  /** Nanoseconds. */
  type Time = int

  const PENDING_LOGIN_TTL: Time := 5 * 60 * 1_000_000_000

  datatype Candidate = Candidate(user: string, tenant: string, slug: string, name: string)

  datatype PendingLogin = PendingLogin(user: string, tenant: string, remember: bool, expires: Time, candidates: seq<Candidate>)

  datatype Call =
    | Issue(user: string, tenant: string, remember: bool)
    | IssueSelection(candidates: seq<Candidate>, remember: bool)
    | ConsumeSelection(slug: string)
    | Consume

  /** A call on a token; `entered` and `read` are the two clock readings it makes, in that order. */
  datatype Op = Op(call: Call, token: string, entered: Time, read: Time) {
    predicate Issues() { call.Issue? || call.IssueSelection? }
  }

  type Tokens = map<string, PendingLogin>

  predicate Expired(p: PendingLogin, now: Time) { now > p.expires }

  function Prune(m: Tokens, now: Time): Tokens { map t | t in m && !Expired(m[t], now) :: m[t] }

  function FirstWithSlug(candidates: seq<Candidate>, slug: string): Option<Candidate> {
    if candidates == [] then None
    else if candidates[0].slug == slug then Some(candidates[0])
    else FirstWithSlug(candidates[1..], slug)
  }

  function Chosen(c: Candidate, remember: bool): PendingLogin { PendingLogin(c.user, c.tenant, remember, 0, []) }

  /** What a call does to the tokens and what it answers, given the tokens left after pruning. */
  function Act(m: Tokens, op: Op): (Tokens, Option<PendingLogin>) {
    match op.call
    case Issue(user, tenant, remember) =>
      (m[op.token := PendingLogin(user, tenant, remember, op.read + PENDING_LOGIN_TTL, [])], None)
    case IssueSelection(candidates, remember) =>
      (m[op.token := PendingLogin("", "", remember, op.read + PENDING_LOGIN_TTL, candidates)], None)
    case ConsumeSelection(slug) =>
      if op.token !in m || Expired(m[op.token], op.read) || m[op.token].candidates == [] then (m - {op.token}, None)
      else
        (match FirstWithSlug(m[op.token].candidates, slug)
         case Some(c) => (m - {op.token}, Some(Chosen(c, m[op.token].remember)))
         case None => (m, None))
    case Consume =>
      if op.token !in m || Expired(m[op.token], op.read) then (m - {op.token}, None)
      else (m - {op.token}, Some(m[op.token]))
  }

  /** With pruning, as the store runs; without, as a map that only ever forgets consumed tokens. */
  function Next(m: Tokens, op: Op, pruning: bool): (Tokens, Option<PendingLogin>) {
    Act(if pruning then Prune(m, op.entered) else m, op)
  }

  function Run(ops: seq<Op>, pruning: bool): Tokens {
    if ops == [] then map[] else Next(Run(ops[..|ops| - 1], pruning), ops[|ops| - 1], pruning).0
  }

  function Answer(ops: seq<Op>, i: nat, pruning: bool): Option<PendingLogin>
    requires i < |ops|
  {
    Next(Run(ops[..i], pruning), ops[i], pruning).1
  }

  /** The clock never runs backwards, within a call or between calls. */
  ghost predicate Monotone(ops: seq<Op>) {
    && (forall i :: 0 <= i < |ops| ==> ops[i].entered <= ops[i].read)
    && (forall i, j :: 0 <= i < j < |ops| ==> ops[i].read <= ops[j].entered)
  }

  // ---- Pruning is invisible -----------------------------------------------------------------

  /** The pruned map is the full one less some tokens that have expired. */
  ghost predicate Agrees(full: Tokens, pruned: Tokens, clock: Time) {
    && (forall t :: t in pruned ==> t in full && full[t] == pruned[t])
    && (forall t :: t in full && t !in pruned ==> Expired(full[t], clock))
  }

  lemma AgreesNext(full: Tokens, pruned: Tokens, clock: Time, op: Op)
    requires Agrees(full, pruned, clock) && clock <= op.entered <= op.read
    ensures Agrees(Next(full, op, false).0, Next(pruned, op, true).0, op.read)
    ensures Next(full, op, false).1 == Next(pruned, op, true).1
  {}

  lemma {:induction false} AgreesThroughout(ops: seq<Op>, clock: Time)
    requires Monotone(ops) && forall i :: 0 <= i < |ops| ==> ops[i].read <= clock
    ensures Agrees(Run(ops, false), Run(ops, true), clock)
  {
    if ops != [] {
      var init, last := ops[..|ops| - 1], ops[|ops| - 1];
      AgreesThroughout(init, last.entered);
      AgreesNext(Run(init, false), Run(init, true), last.entered, last);
    }
  }

  /** Over every run with a monotone clock each call is answered as if nothing were ever pruned. */
  lemma PruningInvisible(ops: seq<Op>, i: nat)
    requires Monotone(ops) && i < |ops|
    ensures Answer(ops, i, true) == Answer(ops, i, false)
  {
    AgreesThroughout(ops[..i], ops[i].entered);
    AgreesNext(Run(ops[..i], false), Run(ops[..i], true), ops[i].entered, ops[i]);
  }

  // ---- Where a token comes from -------------------------------------------------------------

  /** What an issuing call stores. */
  function Stored(op: Op): PendingLogin
    requires op.Issues()
  {
    match op.call
    case Issue(user, tenant, remember) => PendingLogin(user, tenant, remember, op.read + PENDING_LOGIN_TTL, [])
    case IssueSelection(candidates, remember) => PendingLogin("", "", remember, op.read + PENDING_LOGIN_TTL, candidates)
    case _ => PendingLogin("", "", false, 0, [])
  }

  /** A token in the map was put there by an issuing call, and nothing has answered for it since. */
  ghost predicate IssuedAt(ops: seq<Op>, k: nat, token: string, pruning: bool) {
    && k < |ops| && ops[k].Issues() && ops[k].token == token
    && forall j :: k < j < |ops| ==> !(ops[j].token == token && (ops[j].Issues() || Answer(ops, j, pruning).Some?))
  }

  lemma {:induction false} HeldTokenIssued(ops: seq<Op>, token: string, pruning: bool)
    requires token in Run(ops, pruning)
    ensures exists k: nat :: IssuedAt(ops, k, token, pruning) && Run(ops, pruning)[token] == Stored(ops[k])
  {
    var n := |ops| - 1;
    var init, last := ops[..n], ops[n];
    assert forall j :: 0 <= j < n ==> init[..j] == ops[..j];
    if last.Issues() && last.token == token {
      assert IssuedAt(ops, n, token, pruning);
    } else {
      HeldTokenIssued(init, token, pruning);
      var k: nat :| IssuedAt(init, k, token, pruning) && Run(init, pruning)[token] == Stored(init[k]);
      forall j | k < j < |ops| ensures !(ops[j].token == token && (ops[j].Issues() || Answer(ops, j, pruning).Some?)) {
        if j < n { assert Answer(init, j, pruning) == Answer(ops, j, pruning); }
      }
      assert IssuedAt(ops, k, token, pruning);
    }
  }

  /** The answer fits what was stored: the account itself, or a stored candidate with the slug asked for. */
  ghost predicate Fits(call: Call, p: PendingLogin, answer: PendingLogin) {
    && (call.Consume? ==> answer == p)
    && (call.ConsumeSelection? ==>
          exists c :: c in p.candidates && c.slug == call.slug && answer == Chosen(c, p.remember))
  }

  /** Every success answers for one issuing call, no later than its expiry and with its contents, and
      nothing else has answered for that issue in between. */
  lemma SuccessAnswersIssue(ops: seq<Op>, i: nat, pruning: bool)
    requires i < |ops| && Answer(ops, i, pruning).Some?
    ensures exists k: nat :: IssuedAt(ops[..i], k, ops[i].token, pruning)
              && ops[i].read <= ops[k].read + PENDING_LOGIN_TTL
              && Fits(ops[i].call, Stored(ops[k]), Answer(ops, i, pruning).value)
  {
    var token := ops[i].token;
    var m := Run(ops[..i], pruning);
    HeldTokenIssued(ops[..i], token, pruning);
    var k: nat :| IssuedAt(ops[..i], k, token, pruning) && m[token] == Stored(ops[..i][k]);
    if ops[i].call.ConsumeSelection? {
      FirstIsCandidate(m[token].candidates, ops[i].call.slug);
    }
    assert Fits(ops[i].call, Stored(ops[k]), Answer(ops, i, pruning).value);
  }

  lemma {:induction false} FirstIsCandidate(candidates: seq<Candidate>, slug: string)
    ensures FirstWithSlug(candidates, slug).Some? <==> exists c :: c in candidates && c.slug == slug
    ensures var c := FirstWithSlug(candidates, slug); c.Some? ==> c.value in candidates && c.value.slug == slug
  {
    if candidates != [] {
      FirstIsCandidate(candidates[1..], slug);
    }
  }

  /** Two successes on one token need it issued again in between; a token issued once is consumed at most once. */
  lemma ConsumedAtMostOnce(ops: seq<Op>, i: nat, j: nat, pruning: bool)
    requires i < j < |ops| && ops[i].token == ops[j].token
    requires Answer(ops, i, pruning).Some? && Answer(ops, j, pruning).Some?
    ensures exists k :: i < k < j && ops[k].Issues() && ops[k].token == ops[j].token
  {
    var before := ops[..j];
    HeldTokenIssued(before, ops[j].token, pruning);
    assert before[..i] == ops[..i] && before[i] == ops[i];
    assert Answer(before, i, pruning).Some? && !ops[i].Issues();
    var k: nat :| IssuedAt(before, k, ops[j].token, pruning);
    assert i < k;
  }

  // ---- When a call succeeds -----------------------------------------------------------------

  /** A token that waits for a code was offered as a choice since, which deletes it. */
  ghost predicate Misused(ops: seq<Op>, k: nat, token: string)
    requires k < |ops| && ops[k].Issues()
  {
    Stored(ops[k]).candidates == [] && exists j :: k < j < |ops| && ops[j].token == token && ops[j].call.ConsumeSelection?
  }

  /** Nothing but a success, misuse or expiry takes an issued token away. */
  lemma {:induction false} StillHeld(ops: seq<Op>, k: nat, token: string, clock: Time)
    requires Monotone(ops) && (forall i :: 0 <= i < |ops| ==> ops[i].read <= clock)
    requires IssuedAt(ops, k, token, false) && !Misused(ops, k, token) && clock <= ops[k].read + PENDING_LOGIN_TTL
    ensures token in Run(ops, false) && Run(ops, false)[token] == Stored(ops[k])
  {
    var n := |ops| - 1;
    var init, last := ops[..n], ops[n];
    if k < n {
      assert forall j :: 0 <= j < n ==> init[..j] == ops[..j];
      IssuedBefore(ops, k, token);
      StillHeld(init, k, token, clock);
      if last.token == token {
        assert Answer(ops, n, false).None? && !last.Issues();
        if last.call.ConsumeSelection? { assert !(Stored(ops[k]).candidates == []); }
      }
    }
  }

  lemma IssuedBefore(ops: seq<Op>, k: nat, token: string)
    requires k < |ops| - 1 && IssuedAt(ops, k, token, false)
    ensures IssuedAt(ops[..|ops| - 1], k, token, false)
    ensures Misused(ops[..|ops| - 1], k, token) ==> Misused(ops, k, token)
  {
    var init := ops[..|ops| - 1];
    forall j | k < j < |init| ensures !(init[j].token == token && (init[j].Issues() || Answer(init, j, false).Some?)) {
      assert init[j] == ops[j] && init[..j] == ops[..j];
    }
  }

  lemma SameIssues(ops: seq<Op>, k: nat, token: string)
    requires Monotone(ops)
    ensures IssuedAt(ops, k, token, true) <==> IssuedAt(ops, k, token, false)
  {
    forall j | 0 <= j < |ops| ensures Answer(ops, j, true) == Answer(ops, j, false) { PruningInvisible(ops, j); }
  }

  /** The call may succeed on what was stored. */
  ghost predicate Answerable(call: Call, p: PendingLogin) {
    || call.Consume?
    || (call.ConsumeSelection? && exists c :: c in p.candidates && c.slug == call.slug)
  }

  /** The token was issued by call `k`, is unanswered, not misused and not expired, and fits the call. */
  ghost predicate Succeeds(ops: seq<Op>, i: nat, k: nat)
    requires i < |ops|
  {
    && IssuedAt(ops[..i], k, ops[i].token, true) && !Misused(ops[..i], k, ops[i].token)
    && ops[i].read <= ops[k].read + PENDING_LOGIN_TTL && Answerable(ops[i].call, Stored(ops[k]))
  }

  lemma HeldWhile(ops: seq<Op>, i: nat, k: nat)
    requires Monotone(ops) && i < |ops| && IssuedAt(ops[..i], k, ops[i].token, true)
    requires !Misused(ops[..i], k, ops[i].token) && ops[i].read <= ops[k].read + PENDING_LOGIN_TTL
    ensures ops[i].token in Run(ops[..i], false) && Run(ops[..i], false)[ops[i].token] == Stored(ops[k])
  {
    assert ops[..i][k] == ops[k];
    SameIssues(ops[..i], k, ops[i].token);
    StillHeld(ops[..i], k, ops[i].token, ops[i].read);
  }

  /** With a monotone clock a call succeeds exactly if its token was issued no more than five minutes ago, nothing
      has answered for it since, it was not misused, and it fits the call: no live token is ever lost. */
  lemma SucceedsIff(ops: seq<Op>, i: nat)
    requires Monotone(ops) && i < |ops|
    ensures Answer(ops, i, true).Some? <==> exists k: nat :: Succeeds(ops, i, k)
  {
    PruningInvisible(ops, i);
    if k: nat :| Succeeds(ops, i, k) {
      HeldWhile(ops, i, k);
      if ops[i].call.ConsumeSelection? { FirstIsCandidate(Stored(ops[k]).candidates, ops[i].call.slug); }
    }
    if Answer(ops, i, true).Some? {
      SuccessAnswersIssue(ops, i, true);
      var k: nat :| IssuedAt(ops[..i], k, ops[i].token, true) && ops[i].read <= ops[k].read + PENDING_LOGIN_TTL
                    && Fits(ops[i].call, Stored(ops[k]), Answer(ops, i, true).value);
      AnsweredNotMisused(ops, i, k);
      assert Succeeds(ops, i, k);
    }
  }

  /** A choice asked for with a token that waits for a code takes the token away. */
  lemma MisuseDeletes(m: Tokens, op: Op)
    requires op.call.ConsumeSelection? && (op.token in m ==> m[op.token].candidates == [])
    ensures op.token !in Next(m, op, false).0
  {}

  lemma HeldIsLatest(ops: seq<Op>, k: nat, token: string)
    requires IssuedAt(ops, k, token, false) && token in Run(ops, false)
    ensures Run(ops, false)[token] == Stored(ops[k])
  {
    HeldTokenIssued(ops, token, false);
    var l: nat :| IssuedAt(ops, l, token, false) && Run(ops, false)[token] == Stored(ops[l]);
    OneIssue(ops, k, l, token);
  }

  /** After that it is gone until issued again. */
  lemma {:induction false} MisusedIsGone(ops: seq<Op>, k: nat, token: string)
    requires IssuedAt(ops, k, token, false) && Misused(ops, k, token)
    ensures token !in Run(ops, false)
  {
    var n := |ops| - 1;
    var init, last := ops[..n], ops[n];
    var j :| k < j < |ops| && ops[j].token == token && ops[j].call.ConsumeSelection?;
    IssuedBefore(ops, k, token);
    if j < n {
      assert init[j] == ops[j];
      MisusedIsGone(init, k, token);
    } else {
      if token in Run(init, false) { HeldIsLatest(init, k, token); }
      MisuseDeletes(Run(init, false), last);
    }
  }

  lemma OneIssue(ops: seq<Op>, k: nat, l: nat, token: string)
    requires IssuedAt(ops, k, token, false) && IssuedAt(ops, l, token, false)
    ensures k == l
  {}

  lemma AnsweredNotMisused(ops: seq<Op>, i: nat, k: nat)
    requires Monotone(ops) && i < |ops| && IssuedAt(ops[..i], k, ops[i].token, true) && Answer(ops, i, true).Some?
    ensures !Misused(ops[..i], k, ops[i].token)
  {
    PruningInvisible(ops, i);
    SameIssues(ops[..i], k, ops[i].token);
    if Misused(ops[..i], k, ops[i].token) { MisusedIsGone(ops[..i], k, ops[i].token); }
  }

  // ---- The store ----------------------------------------------------------------------------

  class Store {
    var m: Tokens

    constructor ()
      ensures m == map[]
    {
      m := map[];
    }

    method Issue(token: string, user: string, tenant: string, remember: bool, entered: Time, read: Time)
      modifies this
      ensures m == Next(old(m), Op(Call.Issue(user, tenant, remember), token, entered, read), true).0
    {
      PruneLocked(entered);
      m := m[token := PendingLogin(user, tenant, remember, read + PENDING_LOGIN_TTL, [])];
    }

    method IssueSelection(token: string, candidates: seq<Candidate>, remember: bool, entered: Time, read: Time)
      modifies this
      ensures m == Next(old(m), Op(Call.IssueSelection(candidates, remember), token, entered, read), true).0
    {
      PruneLocked(entered);
      m := m[token := PendingLogin("", "", remember, read + PENDING_LOGIN_TTL, candidates)];
    }

    method ConsumeSelection(token: string, slug: string, entered: Time, read: Time) returns (p: Option<PendingLogin>)
      modifies this
      ensures (m, p) == Next(old(m), Op(Call.ConsumeSelection(slug), token, entered, read), true)
    {
      PruneLocked(entered);
      if token !in m || read > m[token].expires || |m[token].candidates| == 0 {
        m := m - {token};
        return None;
      }
      var candidates := m[token].candidates;
      for i := 0 to |candidates|
        invariant m == Prune(old(m), entered)
        invariant FirstWithSlug(candidates, slug) == FirstWithSlug(candidates[i..], slug)
      {
        var c := candidates[i];
        assert candidates[i..][1..] == candidates[i + 1..];
        if c.slug == slug {
          var remember := m[token].remember;
          m := m - {token};
          return Some(PendingLogin(c.user, c.tenant, remember, 0, []));
        }
      }
      return None;
    }

    method Consume(token: string, entered: Time, read: Time) returns (p: Option<PendingLogin>)
      modifies this
      ensures (m, p) == Next(old(m), Op(Call.Consume, token, entered, read), true)
    {
      PruneLocked(entered);
      if token !in m || read > m[token].expires {
        m := m - {token};
        return None;
      }
      p := Some(m[token]);
      m := m - {token};
    }

    method PruneLocked(now: Time)
      modifies this
      ensures m == Prune(old(m), now)
    {
      var keys := m.Keys;
      while keys != {}
        invariant keys <= m.Keys <= old(m).Keys
        invariant forall t :: t in m ==> m[t] == old(m)[t]
        invariant forall t :: t in old(m) && t !in keys ==> (t in m <==> !Expired(old(m)[t], now))
        decreases |keys|
      {
        var t :| t in keys;
        keys := keys - {t};
        if now > m[t].expires { m := m - {t}; }
      }
    }
  }
}
