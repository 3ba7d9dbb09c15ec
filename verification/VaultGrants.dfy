/** No capability escalation: every marker goes back to the owner through grants that never rise. */
module VaultGrants {
  import opened Capability
  import opened Crypto
  import opened Prelude
  import opened VaultClients
  import opened VaultModel
  import opened VaultRuns

  datatype Target = ToUser(user: UserId) | ToGroup(group: GroupId)

  ghost function MarkerOf(s: Secret, t: Target): Option<Cap> {
    match t
    case ToUser(u) => if u in s.directs then Some(s.directs[u]) else None
    case ToGroup(g) => if g in s.groups then Some(s.groups[g]) else None
  }

  /** The accepted event writes marker `t` with capability `c`. */
  ghost predicate Writes(s: Secret, ev: Event, t: Target, c: Cap) {
    && Accepted(s, ev)
    && match ev.request
       case DoShare(r) => t.ToUser? && t.user in Recipients(r.envelopes) - {ev.me} && c == r.capability.Normal()
       case DoShareGroup(r) => t == ToGroup(r.group) && c == GroupShareCap(s, r)
       case _ => false
  }

  /** A marker after a step was there before, or the step wrote it. */
  lemma MarkersChangeByWriting(s: Secret, ev: Event, t: Target)
    requires MarkerOf(After(s, ev), t).Some?
    ensures var c := MarkerOf(After(s, ev), t);
            Writes(s, ev, t, c.value) || MarkerOf(s, t) == c
  {}

  /** The marker `t` reaches the caller of the event. */
  ghost predicate Covers(t: Target, ev: Event) {
    match t case ToUser(u) => u == ev.me case ToGroup(g) => ev.me in ev.dir.MembersOf(g)
  }

  /** What entitles the caller: owning the secret, or a standing marker of at least that rank that
      covers the caller or is the very marker being rewritten. */
  ghost predicate Entitles(s: Secret, ev: Event, t: Target, c: Cap, source: Target) {
    && MarkerOf(s, source).Some? && MarkerOf(s, source).value.Rank() >= c.Rank()
    && (source == t || Covers(source, ev))
  }

  lemma GrantSource(dir: Directory, s: Secret, ev: Event, rank: nat) returns (source: Target)
    requires Granted(dir, s, ev.me, rank) && dir == ev.dir
    ensures MarkerOf(s, source).Some? && MarkerOf(s, source).value.Rank() == rank && Covers(source, ev)
  {
    if ev.me in s.directs && s.directs[ev.me].Rank() == rank {
      source := ToUser(ev.me);
    } else {
      var g :| g in s.groups && ev.me in dir.MembersOf(g) && s.groups[g].Rank() == rank;
      source := ToGroup(g);
    }
  }

  /** An accepted write needs the rank it grants: the caller's effective capability ranks at least `c`,
      or the marker repeats the capability it already had. */
  lemma WriterOutranks(s: Secret, ev: Event, t: Target, c: Cap)
    requires Writes(s, ev, t, c)
    ensures var have := EffectiveCapability(ev.dir, s, ev.me);
            || (have.Some? && have.value.Rank() >= c.Rank())
            || (MarkerOf(s, t).Some? && MarkerOf(s, t).value.Normal() == c)
  {}

  lemma WriterIsEntitled(s: Secret, ev: Event, t: Target, c: Cap) returns (source: Target)
    requires Writes(s, ev, t, c) && ev.me != s.owner
    ensures Entitles(s, ev, t, c, source)
  {
    if Granted(ev.dir, s, ev.me, 4) {
      source := GrantSource(ev.dir, s, ev, 4);
    } else if Granted(ev.dir, s, ev.me, 3) && c.Rank() <= 3 {
      source := GrantSource(ev.dir, s, ev, 3);
    } else {
      source := t;
    }
  }

  /** The marker (t, c), written at position `p` of the run (0 is the creation), has a chain of standing
      grants of no lower rank back to the owner. */
  ghost predicate FromOwner(s0: Secret, evs: seq<Event>, p: nat, t: Target, c: Cap)
    requires p <= |evs|
  {
    if p == 0 then
      MarkerOf(s0, t) == Some(c)
    else
      var s, ev := Run(s0, evs[..p - 1]), evs[p - 1];
      && Writes(s, ev, t, c)
      && (ev.me == s0.owner
          || exists source: Target, q: nat ::
               && q < p && Entitles(s, ev, t, c, source)
               && FromOwner(s0, evs, q, source, MarkerOf(s, source).value))
  }

  lemma {:induction false} FromOwnerExtends(s0: Secret, evs: seq<Event>, more: seq<Event>, p: nat, t: Target, c: Cap)
    requires p <= |evs| && evs <= more && FromOwner(s0, evs, p, t, c)
    ensures FromOwner(s0, more, p, t, c)
  {
    if p > 0 {
      assert more[..p - 1] == evs[..p - 1];
      var s, ev := Run(s0, evs[..p - 1]), evs[p - 1];
      if ev.me != s0.owner {
        var source: Target, q: nat :|
          && q < p && Entitles(s, ev, t, c, source)
          && FromOwner(s0, evs, q, source, MarkerOf(s, source).value);
        FromOwnerExtends(s0, evs, more, q, source, MarkerOf(s, source).value);
      }
    }
  }

  /** In every reachable state every marker comes from the owner, or was there at the start. */
  lemma {:induction false} EveryMarkerFromOwner(s0: Secret, evs: seq<Event>, t: Target) returns (p: nat)
    requires MarkerOf(Run(s0, evs), t).Some?
    ensures p <= |evs| && FromOwner(s0, evs, p, t, MarkerOf(Run(s0, evs), t).value)
  {
    var c := MarkerOf(Run(s0, evs), t).value;
    if evs == [] {
      p := 0;
    } else {
      var n := |evs| - 1;
      var init, ev := evs[..n], evs[n];
      var s := Run(s0, init);
      RunOwner(s0, init);
      MarkersChangeByWriting(s, ev, t);
      if !Writes(s, ev, t, c) {
        p := EveryMarkerFromOwner(s0, init, t);
        FromOwnerExtends(s0, init, evs, p, t, c);
      } else {
        p := |evs|;
        if ev.me != s0.owner {
          var source := WriterIsEntitled(s, ev, t, c);
          var q := EveryMarkerFromOwner(s0, init, source);
          FromOwnerExtends(s0, init, evs, q, source, MarkerOf(s, source).value);
        }
      }
    }
  }

  // ---- Lowering -----------------------------------------------------------------------------

  /** The accepted event takes the marker away or leaves it with a lower rank. */
  ghost predicate Lowers(s: Secret, ev: Event, t: Target) {
    && Accepted(s, ev) && MarkerOf(s, t).Some?
    && var after := MarkerOf(After(s, ev), t);
    && after.Some? ==> after.value.Rank() < MarkerOf(s, t).value.Rank()
  }

  /** Markers go only by rotation. A user's marker is lowered only by who may share; a group's also by any
      envelope holder, with a capability named that is not above the caller's own. */
  lemma WhoLowers(s: Secret, ev: Event, t: Target)
    requires Lowers(s, ev, t)
    ensures var after := MarkerOf(After(s, ev), t);
            && HasEnvelope(s, ev.me)
            && match ev.request
               case DoShare(r) =>
                 after.Some? && t.ToUser? && t.user != ev.me && RequireCap(ev.dir, s, ev.me, Share)
                 && MayGrant(ev.dir, s, ev.me, after.value)
               case DoShareGroup(r) =>
                 after.Some? && t == ToGroup(r.group) && r.capability != Empty && MayGrant(ev.dir, s, ev.me, after.value)
               case DoUpdate(r) => false
               case DoRotate(r) => after.None? && RequireCap(ev.dir, s, ev.me, Admin)
  {}

  /** The catch-up that names a capability and seals nothing. */
  function Demotion(g: GroupId, c: Cap): ShareGroupReq { ShareGroupReq(g, [], c) }

  /** A standing group marker can be set to a lower capability by exactly the envelope holders who rank at
      least that high: the right to share is not asked for. */
  lemma GroupLoweredIff(dir: Directory, s: Secret, me: UserId, g: GroupId, c: Cap)
    requires g != "" && g in s.groups && c != Empty && c.Normal() == c && c.Rank() < s.groups[g].Rank()
    ensures HasEnvelope(s, me) && MayGrant(dir, s, me, c)
       <==> exists r: ShareGroupReq :: r.group == g && ShareGroupStep(dir, s, me, r).Done?
              && ShareGroupStep(dir, s, me, r).secret.groups[g] == c
  {
    var r := Demotion(g, c);
    assert HasEnvelope(s, me) && MayGrant(dir, s, me, c) ==>
        r.group == g && ShareGroupStep(dir, s, me, r).Done? && ShareGroupStep(dir, s, me, r).secret.groups[g] == c;
  }

  /** So whoever holds an envelope, a mere reader too, can lower any group's marker to read. */
  lemma HolderLowersToRead(dir: Directory, s: Secret, me: UserId, g: GroupId)
    requires g != "" && g in s.groups && s.groups[g].Rank() > Read.Rank() && HasEnvelope(s, me)
    ensures exists r: ShareGroupReq :: r.group == g && ShareGroupStep(dir, s, me, r).Done?
              && ShareGroupStep(dir, s, me, r).secret.groups[g] == Read
  {
    GroupLoweredIff(dir, s, me, g, Read);
  }

  // ---- The departure from the documented maximum --------------------------------------------

  /** The best rank among the markers that reach the user and, for an envelope holder, read. Zero: none. */
  ghost function DocumentedRank(dir: Directory, s: Secret, u: UserId): nat {
    if u == s.owner || Granted(dir, s, u, 4) then 4
    else if Granted(dir, s, u, 3) then 3
    else if Granted(dir, s, u, 2) then 2
    else if Granted(dir, s, u, 1) || HasEnvelope(s, u) then 1
    else 0
  }

  ghost function ActualRank(dir: Directory, s: Secret, u: UserId): nat {
    var have := EffectiveCapability(dir, s, u);
    if have.Some? then have.value.Rank() else 0
  }

  /** The handler returns the maximum of all grants exactly when the best grant is above write, or
      there is no write grant and read comes with an envelope or not at all. */
  lemma MaximumOfGrantsIff(dir: Directory, s: Secret, u: UserId)
    ensures ActualRank(dir, s, u) == DocumentedRank(dir, s, u)
       <==> || u == s.owner || Granted(dir, s, u, 4) || Granted(dir, s, u, 3)
            || (!Granted(dir, s, u, 2) && (Granted(dir, s, u, 1) ==> HasEnvelope(s, u)))
    ensures ActualRank(dir, s, u) <= DocumentedRank(dir, s, u)
    ensures ActualRank(dir, s, u) < DocumentedRank(dir, s, u) ==> ActualRank(dir, s, u) == if HasEnvelope(s, u) then 1 else 0
  {}

  /** What the checks of the handlers ask for, in ranks: the empty capability of someone without any grant
      still counts as write when it is compared with one to be given. */
  lemma ChecksByRank(dir: Directory, s: Secret, u: UserId, want: Cap)
    ensures RequireCap(dir, s, u, want) <==> ActualRank(dir, s, u) >= want.Rank()
    ensures MayGrant(dir, s, u, want) <==> (if ActualRank(dir, s, u) == 0 then 2 else ActualRank(dir, s, u)) >= want.Rank()
    ensures want.Rank() == match want case Read => 1 case Share => 3 case Admin => 4 case _ => 2
  {}

  /** The request by which the owner shares an openable secret with one more user, for writing. */
  ghost function FirstShare(s: Secret, u: UserId): ShareReq
    requires Openable(s)
  {
    ShareReq([EnvelopeIn(u, s.version, Some(SealDataKey(s.payload.key, u)))], Write)
  }

  lemma FirstShareHonest(s: Secret, u: UserId)
    requires Openable(s)
    ensures Honest(s, s.owner, DoShare(FirstShare(s, u)))
  {
    assert LiveAt(s, s.owner, s.version);
    assert OpensTo(s, s.owner, s.payload.key);
    assert BuiltWith(s, s.payload.key, DoShare(FirstShare(s, u)));
  }

  lemma FirstShareAccepted(dir: Directory, s: Secret, u: UserId)
    requires Openable(s) && CurrentIntact(s) && dir.Shareable(u)
    ensures ShareStep(dir, s, s.owner, FirstShare(s, u)).Done?
  {
    assert LiveAt(s, s.owner, s.version);
    var envs := FirstShare(s, u).envelopes;
    assert envs[..0] == [];
    assert FirstRefusal(dir, envs, s.version, None).None?;
    NoRefusal(dir, envs, s.version, None);
    IntactPuts(s, envs);
  }

  /** Whenever the owner of an openable secret without markers shares it for writing, the request is accepted
      and the secret stays openable, but the new user is treated as a reader: no update of theirs is accepted. */
  lemma WriteGrantFallsToRead(dir: Directory, s: Secret, u: UserId)
    requires Openable(s) && CurrentIntact(s) && s.directs == map[] && s.groups == map[]
    requires dir.Shareable(u) && u != s.owner
    ensures var share := FirstShare(s, u);
            && Honest(s, s.owner, DoShare(share)) && ShareStep(dir, s, s.owner, share).Done?
            && var s' := ShareStep(dir, s, s.owner, share).secret;
            && Openable(s') && Granted(dir, s', u, 2) && HasEnvelope(s', u)
            && EffectiveCapability(dir, s', u) == Some(Read)
            && forall req :: UpdateStep(dir, s', u, req) == Refused(CapabilityRequired)
  {
    var share := FirstShare(s, u);
    FirstShareHonest(s, u);
    FirstShareAccepted(dir, s, u);
    var ev := Event(dir, s.owner, DoShare(share));
    var s' := ShareStep(dir, s, s.owner, share).secret;
    HonestStep(s, ev, s);
    NoRefusal(dir, share.envelopes, s.version, None);
    var puts := PutsAt(share.envelopes, s.version);
    PutAllWrites(s.rows, puts);
    assert puts[0].key == RowKey(u, s.version);
    assert LiveAt(s', u, s.version);
    assert share.envelopes[0] in share.envelopes;
    assert s'.directs == map[u := Write];
  }

  /** Such a secret, right after its creation, and such a user. */
  lemma WriteGrantInstance()
    ensures exists dir: Directory, s: Secret, u: UserId ::
              && Openable(s) && CurrentIntact(s) && s.directs == map[] && s.groups == map[]
              && dir.Shareable(u) && u != s.owner
  {
    var dir := Directory(map["bob" := User("bob", true, true, false)], map[]);
    var s := Secret("al", false, Sealed(7, 1, 0), Sealed(7, 1, 1), 1, map[RowKey("al", 1) := Row(BoxTo("al", 7), false)], map[], map[]);
    assert |"bob"| != |"al"|;
    assert LiveAt(s, "al", 1);
    assert Openable(s) && dir.Shareable("bob");
  }
}
