/** The request handlers for secrets, step by step over the store, each proved against its step function.
    A handler is one atomic step; its two-write sequences are not interleaved with other handlers. */
module Handlers {
  import opened Capability
  import opened Crypto
  import opened Prelude
  import opened VaultModel
  import opened VaultStore

  /** The stored secrets and the answer are those of the outcome; `None` is success. */
  ghost predicate Answered(before: map<SecretId, Secret>, after: map<SecretId, Secret>, id: SecretId,
                           outcome: Outcome, answer: Option<Refusal>)
  {
    match outcome
    case Done(s) => answer == None && after == before[id := s]
    case Refused(why) => answer == Some(why) && after == before
  }

  // ---- Prefix lemmas for the envelope loops -------------------------------------------------

  lemma {:induction false} RefusalSticks(dir: Directory, envs: seq<EnvelopeIn>, version: nat, group: Option<GroupId>, i: nat)
    requires i <= |envs| && FirstRefusal(dir, envs[..i], version, group).Some?
    ensures FirstRefusal(dir, envs, version, group) == FirstRefusal(dir, envs[..i], version, group)
  {
    if i == |envs| {
      assert envs[..i] == envs;
    } else {
      var init := envs[..|envs| - 1];
      assert init[..i] == envs[..i];
      RefusalSticks(dir, init, version, group, i);
    }
  }

  lemma RefusalStep(dir: Directory, envs: seq<EnvelopeIn>, version: nat, group: Option<GroupId>, i: nat)
    requires i < |envs| && FirstRefusal(dir, envs[..i], version, group).None?
    ensures FirstRefusal(dir, envs[..i + 1], version, group) == EnvelopeRefusal(dir, envs[i], version, group)
  {
    assert envs[..i + 1][..i] == envs[..i];
  }

  /** The direct markers of a share: everyone named but the caller, at one capability. */
  ghost function Marked(directs: map<UserId, Cap>, envs: seq<EnvelopeIn>, me: UserId, cap: Cap): map<UserId, Cap> {
    map u | u in directs.Keys + (Recipients(envs) - {me}) ::
      if u in Recipients(envs) - {me} then cap else directs[u]
  }

  lemma MarkedStep(directs: map<UserId, Cap>, envs: seq<EnvelopeIn>, me: UserId, cap: Cap, i: nat)
    requires i < |envs|
    ensures Marked(directs, envs[..i + 1], me, cap)
         == if envs[i].user == me then Marked(directs, envs[..i], me, cap)
            else Marked(directs, envs[..i], me, cap)[envs[i].user := cap]
  {
    assert envs[..i + 1] == envs[..i] + [envs[i]];
    assert Recipients(envs[..i + 1]) == Recipients(envs[..i]) + {envs[i].user};
  }

  lemma ListedIff(s: Secret, id: SecretId, envs: seq<KeyEnvelope>, me: UserId)
    requires forall e :: e in envs ==> LiveAt(s, e.user, e.version)
    requires forall u, v :: LiveAt(s, u, v) ==> KeyEnvelope(id, u, v, s.rows[RowKey(u, v)].box) in envs
    ensures HasEnvelope(s, me) <==> exists i :: 0 <= i < |envs| && envs[i].user == me
  {
    if HasEnvelope(s, me) {
      var v :| LiveAt(s, me, v);
      var e := KeyEnvelope(id, me, v, s.rows[RowKey(me, v)].box);
      var i :| 0 <= i < |envs| && envs[i] == e;
    }
    if i :| 0 <= i < |envs| && envs[i].user == me {
      assert envs[i] in envs;
    }
  }

  lemma PutDirectsStep(directs: map<UserId, Cap>, list: seq<DirectShare>, d: DirectShare)
    ensures PutDirects(directs, list + [d]) == PutDirects(directs, list)[d.user := d.capability]
  {
    assert (list + [d])[..|list|] == list;
  }

  class Api {
    const vault: Store

    constructor (vault: Store)
      ensures this.vault == vault
    {
      this.vault := vault;
    }

    method CallerHasEnvelope(id: SecretId, me: UserId) returns (has: bool)
      ensures has <==> id in vault.secrets && HasEnvelope(vault.secrets[id], me)
    {
      var envs := vault.ListKeyEnvelopes(id);
      if id in vault.secrets { ListedIff(vault.secrets[id], id, envs, me); }
      for i := 0 to |envs|
        invariant forall k :: 0 <= k < i ==> envs[k].user != me
      {
        if envs[i].user == me {
          assert envs[i] in envs;
          return true;
        }
      }
      return false;
    }

    /** The accumulator starts at the empty capability, which already ranks as write. */
    method CallerEffectiveCapability(id: SecretId, me: UserId) returns (have: Option<Cap>)
      requires id in vault.secrets
      ensures have == EffectiveCapability(vault.Dir(), vault.secrets[id], me)
    {
      ghost var dir, s := vault.Dir(), vault.secrets[id];
      if vault.secrets[id].owner == me { return Some(Admin); }
      var best := Empty;
      var directs := vault.ListSecretDirectShares(id);
      for i := 0 to |directs|
        invariant best == BestDirect(directs[..i], me)
      {
        assert directs[..i + 1] == directs[..i] + [directs[i]];
        if directs[i].user == me && directs[i].capability.Rank() > best.Rank() {
          best := directs[i].capability.Normal();
        }
      }
      assert directs[..|directs|] == directs;
      var groups := vault.ListUserGroups(me);
      var inGroup := set g | g in groups;
      var shares := vault.ListSecretGroupShares(id);
      ghost var fromDirects := best;
      for i := 0 to |shares|
        invariant best == BestGroup(shares[..i], inGroup, fromDirects)
      {
        assert shares[..i + 1] == shares[..i] + [shares[i]];
        if shares[i].group in inGroup && shares[i].capability.Rank() > best.Rank() {
          best := shares[i].capability.Normal();
        }
      }
      assert shares[..|shares|] == shares;
      BestIsGranted(dir, s, me, id, directs, inGroup, shares);
      if best != Empty { return Some(best); }
      var has := CallerHasEnvelope(id, me);
      return if has then Some(Read) else None;
    }

    method RequireSecretCap(id: SecretId, me: UserId, want: Cap) returns (ok: bool)
      requires id in vault.secrets
      ensures ok <==> RequireCap(vault.Dir(), vault.secrets[id], me, want)
    {
      var have := CallerEffectiveCapability(id, me);
      ok := have.Some? && have.value.AtLeast(want);
    }

    method RecipientShareable(u: UserId) returns (ok: bool)
      ensures ok <==> vault.Dir().Shareable(u)
    {
      ok := u in vault.users && vault.users[u].onboarded && vault.users[u].hasKey && !vault.users[u].disabled;
    }

    /** Recomputes private or shared from the markers, or forces shared. */
    method SyncSecretVisibility(id: SecretId, forceShared: bool)
      requires id in vault.secrets
      modifies vault`secrets
      ensures vault.secrets == old(vault.secrets)[id := old(vault.secrets)[id].(
                shared := forceShared || old(vault.secrets)[id].directs != map[] || old(vault.secrets)[id].groups != map[])]
    {
      var s := vault.secrets[id];
      var shared := false;
      if forceShared {
        shared := true;
      } else {
        var directs := vault.ListSecretDirectShares(id);
        var groups := vault.ListSecretGroupShares(id);
        NonEmptyLists(s, id, directs, groups);
        shared := |directs| > 0 || |groups| > 0;
      }
      if s.shared == shared { return; }
      vault.PutSecretMeta(id, s.title, shared);
    }

    method HandleShareSecret(id: SecretId, me: UserId, req: ShareReq) returns (answer: Option<Refusal>)
      modifies vault`secrets
      ensures id !in old(vault.secrets) ==> answer == Some(NoEnvelope) && vault.secrets == old(vault.secrets)
      ensures id in old(vault.secrets) ==>
                Answered(old(vault.secrets), vault.secrets, id,
                         ShareStep(old(vault.Dir()), old(vault.secrets)[id], me, req), answer)
    {
      var has := CallerHasEnvelope(id, me);
      if !has { return Some(NoEnvelope); }
      var allowed := RequireSecretCap(id, me, Share);
      if !allowed { return Some(CapabilityRequired); }
      var cap := req.capability.Normal();
      var have := CallerEffectiveCapability(id, me);
      if !(if have.Some? then have.value else Empty).AtLeast(cap) { return Some(AboveOwn); }
      ghost var dir := vault.Dir();
      var s := vault.secrets[id];
      var envs := req.envelopes;
      var puts: seq<Put> := [];
      var directs: seq<DirectShare> := [];
      for i := 0 to |envs|
        invariant vault.secrets == old(vault.secrets)
        invariant FirstRefusal(dir, envs[..i], s.version, None).None?
        invariant |puts| == i
        invariant forall k :: 0 <= k < i ==> envs[k].box.Some? && puts[k] == Put(RowKey(envs[k].user, s.version), envs[k].box.value)
        invariant PutDirects(s.directs, directs) == Marked(s.directs, envs[..i], me, cap)
      {
        var e := envs[i];
        RefusalStep(dir, envs, s.version, None, i);
        if FirstRefusal(dir, envs[..i + 1], s.version, None).Some? {
          RefusalSticks(dir, envs, s.version, None, i + 1);
        }
        var shareable := RecipientShareable(e.user);
        if !shareable { return Some(RecipientNotOnboarded); }
        if e.box.None? { return Some(InvalidEnvelope); }
        var kv := if e.version == 0 then 1 else e.version;
        if kv != s.version { return Some(VersionMismatch); }
        puts := puts + [Put(RowKey(e.user, kv), e.box.value)];
        MarkedStep(s.directs, envs, me, cap, i);
        if e.user != me {
          PutDirectsStep(s.directs, directs, DirectShare(e.user, cap));
          directs := directs + [DirectShare(e.user, cap)];
        }
      }
      assert envs[..|envs|] == envs;
      assert puts == PutsAt(envs, s.version);
      var ok := vault.ShareSecret(id, puts, directs);
      if !ok { return Some(RevokedEnvelope); }
      SyncSecretVisibility(id, true);
      return None;
    }

    /** The envelope loop of a group share: recipients must be members that can receive shares. */
    method CollectGroupEnvelopes(group: GroupId, envs: seq<EnvelopeIn>, version: nat)
      returns (refusal: Option<Refusal>, puts: seq<Put>)
      ensures refusal == FirstRefusal(vault.Dir(), envs, version, Some(group))
      ensures refusal.None? ==> AllBoxed(envs) && puts == PutsAt(envs, version)
    {
      ghost var dir := vault.Dir();
      var members := vault.ListGroupMembers(group);
      var allowed := set m | m in members;
      puts := [];
      for i := 0 to |envs|
        invariant FirstRefusal(dir, envs[..i], version, Some(group)).None?
        invariant |puts| == i
        invariant forall k :: 0 <= k < i ==> envs[k].box.Some? && puts[k] == Put(RowKey(envs[k].user, version), envs[k].box.value)
      {
        var e := envs[i];
        RefusalStep(dir, envs, version, Some(group), i);
        if FirstRefusal(dir, envs[..i + 1], version, Some(group)).Some? {
          RefusalSticks(dir, envs, version, Some(group), i + 1);
        }
        if e.user !in allowed { return Some(NotInGroup), puts; }
        var shareable := RecipientShareable(e.user);
        if !shareable { return Some(RecipientNotOnboarded), puts; }
        if e.box.None? { return Some(InvalidEnvelope), puts; }
        var kv := if e.version == 0 then 1 else e.version;
        if kv != version { return Some(VersionMismatch), puts; }
        puts := puts + [Put(RowKey(e.user, kv), e.box.value)];
      }
      assert envs[..|envs|] == envs;
      assert puts == PutsAt(envs, version);
      return None, puts;
    }

    method HandleShareGroup(id: SecretId, me: UserId, req: ShareGroupReq) returns (answer: Option<Refusal>)
      modifies vault`secrets
      ensures id !in old(vault.secrets) ==> answer == Some(NoEnvelope) && vault.secrets == old(vault.secrets)
      ensures id in old(vault.secrets) ==>
                Answered(old(vault.secrets), vault.secrets, id,
                         ShareGroupStep(old(vault.Dir()), old(vault.secrets)[id], me, req), answer)
    {
      var has := CallerHasEnvelope(id, me);
      if !has { return Some(NoEnvelope); }
      if req.group == "" { return Some(GroupRequired); }
      ghost var dir := vault.Dir();
      var s := vault.secrets[id];
      var alreadyShared := req.group in s.groups;
      if !alreadyShared {
        var allowed := RequireSecretCap(id, me, Share);
        if !allowed { return Some(CapabilityRequired); }
      }
      var cap := GroupShareCap(s, req);
      var have := CallerEffectiveCapability(id, me);
      var mayGrant := (if have.Some? then have.value else Empty).AtLeast(cap);
      if !alreadyShared && !mayGrant { return Some(AboveOwn); }
      if alreadyShared && req.capability != Empty && !mayGrant { return Some(AboveOwn); }
      var refusal, puts := CollectGroupEnvelopes(req.group, req.envelopes, s.version);
      if refusal.Some? { return refusal; }
      var ok := vault.ShareSecretGroup(id, puts, req.group, cap);
      if !ok { return Some(RevokedEnvelope); }
      SyncSecretVisibility(id, true);
      return None;
    }

    method HandleUpdateSecret(id: SecretId, me: UserId, req: UpdateReq) returns (answer: Option<Refusal>)
      modifies vault`secrets
      ensures id !in old(vault.secrets) ==> answer == Some(NoEnvelope) && vault.secrets == old(vault.secrets)
      ensures id in old(vault.secrets) ==>
                Answered(old(vault.secrets), vault.secrets, id,
                         UpdateStep(old(vault.Dir()), old(vault.secrets)[id], me, req), answer)
    {
      var has := CallerHasEnvelope(id, me);
      if !has { return Some(NoEnvelope); }
      var allowed := RequireSecretCap(id, me, Write);
      if !allowed { return Some(CapabilityRequired); }
      var s := vault.secrets[id];
      var version := if req.version == 0 then s.version else req.version;
      if version != s.version { return Some(VersionMismatch); }
      if req.title.None? || req.payload.None? { return Some(InvalidCiphertext); }
      vault.PutSecretMeta(id, req.title.value, s.shared);
      vault.PutSecretCiphertext(id, req.payload.value, version);
      return None;
    }

    /** How many of the trimmed ids name a share target. */
    method CountTargets(ids: seq<string>, except: string) returns (n: nat)
      ensures n > 0 <==> Named(ids) - {except} != {}
    {
      n := 0;
      for i := 0 to |ids|
        invariant n > 0 <==> Named(ids[..i]) - {except} != {}
      {
        NamedStep(ids, i);
        if Trim(ids[i]) != "" && Trim(ids[i]) != except {
          n := n + 1;
          assert Trim(ids[i]) in Named(ids[..i + 1]) - {except};
        }
        assert Named(ids[..i]) - {except} <= Named(ids[..i + 1]) - {except};
      }
      assert ids[..|ids|] == ids;
    }

    /** The stored visibility: shared exactly when there are targets; asking for shared without any is refused. */
    method ResolveVisibility(me: UserId, req: CreateReq) returns (complete: bool, shared: bool)
      ensures var (users, groups) := ShareTargets(me, req);
              var none := users == {} && groups == {};
              && (complete <==> !(Trim(req.visibility) == "shared" && none))
              && (complete ==> shared == !none)
    {
      var shareUserN := CountTargets(req.shareUsers, me);
      var shareGroupN := CountTargets(req.shareGroups, "");
      assert Named(req.shareGroups) - {""} == Named(req.shareGroups);
      shared := Trim(req.visibility) == "shared";
      if req.visibility == "" {
        assert Trim("") == "";
        shared := shareUserN + shareGroupN > 0;
      }
      if shared && shareUserN + shareGroupN == 0 { return false, shared; }
      if !shared && shareUserN + shareGroupN > 0 { shared := true; }
      complete := true;
    }

    /** The envelope loop of a creation: an envelope without a version takes the secret's. */
    method CollectCreationEnvelopes(envs: seq<EnvelopeIn>, version: nat) returns (boxed: bool, puts: seq<Put>)
      ensures boxed <==> AllBoxed(envs)
      ensures boxed ==> puts == CreatePuts(envs, version)
    {
      puts := [];
      for i := 0 to |envs|
        invariant |puts| == i && AllBoxed(envs[..i])
        invariant puts == CreatePuts(envs[..i], version)
      {
        if envs[i].box.None? { return false, puts; }
        var kv := if envs[i].version == 0 then version else envs[i].version;
        puts := puts + [Put(RowKey(envs[i].user, kv), envs[i].box.value)];
        assert puts == CreatePuts(envs[..i + 1], version);
      }
      assert envs[..|envs|] == envs;
      boxed := true;
    }

    /** Marks users one by one, stopping at the first that cannot receive shares. */
    method MarkUsers(id: SecretId, me: UserId, ids: seq<string>, cap: Cap) returns (failed: bool)
      requires id in vault.secrets && vault.secrets[id].directs == map[]
      modifies vault`secrets
      ensures failed == UsersBeforeFailure(vault.Dir(), me, ids).1
      ensures vault.secrets == old(vault.secrets)[id := old(vault.secrets)[id].(
                directs := Marks(UsersBeforeFailure(vault.Dir(), me, ids).0, cap))]
    {
      ghost var s, dir := vault.secrets[id], vault.Dir();
      assert UsersBeforeFailure(dir, me, ids[..0]) == ({}, false) && Marks({}, cap) == map[];
      for i := 0 to |ids|
        invariant id in vault.secrets && vault.secrets == old(vault.secrets)[id := vault.secrets[id]]
        invariant !UsersBeforeFailure(dir, me, ids[..i]).1
        invariant vault.secrets[id] == s.(directs := Marks(UsersBeforeFailure(dir, me, ids[..i]).0, cap))
      {
        assert ids[..i + 1][..i] == ids[..i];
        ghost var before := UsersBeforeFailure(dir, me, ids[..i]).0;
        var u := Trim(ids[i]);
        if u == "" || u == me { continue; }
        var shareable := RecipientShareable(u);
        if !shareable {
          FailureSticks(dir, me, ids, i + 1);
          return true;
        }
        MarksAdd(before, u, cap);
        vault.PutSecretDirectShare(id, u, cap);
      }
      assert ids[..|ids|] == ids;
      failed := false;
    }

    method MarkGroups(id: SecretId, ids: seq<string>, cap: Cap)
      requires id in vault.secrets && vault.secrets[id].groups == map[]
      modifies vault`secrets
      ensures vault.secrets == old(vault.secrets)[id := old(vault.secrets)[id].(groups := Marks(Named(ids), cap))]
    {
      ghost var s := vault.secrets[id];
      assert Marks(Named(ids[..0]), cap) == map[];
      for i := 0 to |ids|
        invariant id in vault.secrets && vault.secrets == old(vault.secrets)[id := vault.secrets[id]]
        invariant vault.secrets[id] == s.(groups := Marks(Named(ids[..i]), cap))
      {
        NamedStep(ids, i);
        var g := Trim(ids[i]);
        if g == "" {
          assert Named(ids[..i + 1]) == Named(ids[..i]);
          continue;
        }
        MarksAdd(Named(ids[..i]), g, cap);
        vault.PutSecretGroupShare(id, g, cap);
      }
      assert ids[..|ids|] == ids;
    }

    /** The id is drawn at random; it is assumed not to be in use. */
    method HandleCreateSecret(id: SecretId, me: UserId, req: CreateReq) returns (answer: Option<Refusal>)
      requires id !in vault.secrets
      modifies vault`secrets
      ensures var c := CreateStep(old(vault.Dir()), me, req);
              && answer == c.refusal
              && vault.secrets == if c.secret.Some? then old(vault.secrets)[id := c.secret.value] else old(vault.secrets)
    {
      if req.title.None? || req.payload.None? { return Some(InvalidCiphertext); }
      var version := if req.version == 0 then 1 else req.version;
      if req.envelopes == [] { return Some(EnvelopesRequired); }
      var complete, shared := ResolveVisibility(me, req);
      if !complete { return Some(SharesRequired); }
      var boxed, puts := CollectCreationEnvelopes(req.envelopes, version);
      if !boxed { return Some(InvalidEnvelope); }
      var ok := vault.CreateSecret(id, me, shared, req.title.value, req.payload.value, version, puts);
      if !ok { return Some(RevokedEnvelope); }
      answer := WriteMarks(id, me, req);
    }

    /** The marker writes of a creation. */
    method WriteMarks(id: SecretId, me: UserId, req: CreateReq) returns (answer: Option<Refusal>)
      requires id in vault.secrets && vault.secrets[id].directs == map[] && vault.secrets[id].groups == map[]
      modifies vault`secrets
      ensures var c := MarkCreated(vault.Dir(), me, req, old(vault.secrets)[id]);
              answer == c.refusal && vault.secrets == old(vault.secrets)[id := c.secret.value]
    {
      var cap := req.capability.Normal();
      var failed := MarkUsers(id, me, req.shareUsers, cap);
      if failed { return Some(RecipientNotOnboarded); }
      MarkGroups(id, req.shareGroups, cap);
      return None;
    }

    /** Deletes the direct markers of the trimmed, non-empty ids. */
    method DropDirects(id: SecretId, ids: seq<string>)
      requires id in vault.secrets
      modifies vault`secrets
      ensures vault.secrets == old(vault.secrets)[id := old(vault.secrets)[id].(
                directs := old(vault.secrets)[id].directs - Named(ids))]
    {
      ghost var s := vault.secrets[id];
      assert s.directs - Named(ids[..0]) == s.directs;
      for i := 0 to |ids|
        invariant id in vault.secrets && vault.secrets == old(vault.secrets)[id := vault.secrets[id]]
        invariant vault.secrets[id] == s.(directs := s.directs - Named(ids[..i]))
      {
        NamedStep(ids, i);
        if Trim(ids[i]) != "" { vault.DeleteSecretDirectShare(id, Trim(ids[i])); }
        assert vault.secrets[id].directs == s.directs - Named(ids[..i + 1]);
      }
      assert ids[..|ids|] == ids;
    }

    method DropGroups(id: SecretId, ids: seq<string>)
      requires id in vault.secrets
      modifies vault`secrets
      ensures vault.secrets == old(vault.secrets)[id := old(vault.secrets)[id].(
                groups := old(vault.secrets)[id].groups - Named(ids))]
    {
      ghost var s := vault.secrets[id];
      assert s.groups - Named(ids[..0]) == s.groups;
      for i := 0 to |ids|
        invariant id in vault.secrets && vault.secrets == old(vault.secrets)[id := vault.secrets[id]]
        invariant vault.secrets[id] == s.(groups := s.groups - Named(ids[..i]))
      {
        NamedStep(ids, i);
        if Trim(ids[i]) != "" { vault.DeleteSecretGroupShare(id, Trim(ids[i])); }
        assert vault.secrets[id].groups == s.groups - Named(ids[..i + 1]);
      }
      assert ids[..|ids|] == ids;
    }

    /** The envelope loop of a rotation: every envelope at the new version, and is the owner's among them? */
    method CollectRotationEnvelopes(envs: seq<EnvelopeIn>, version: nat, owner: UserId)
      returns (boxed: bool, ownerIncluded: bool, puts: seq<Put>)
      ensures boxed <==> AllBoxed(envs)
      ensures boxed ==> (ownerIncluded <==> owner in Recipients(envs)) && puts == PutsAt(envs, version)
    {
      puts, ownerIncluded := [], false;
      for i := 0 to |envs|
        invariant |puts| == i
        invariant forall k :: 0 <= k < i ==> envs[k].box.Some? && puts[k] == Put(RowKey(envs[k].user, version), envs[k].box.value)
        invariant ownerIncluded <==> owner in Recipients(envs[..i])
      {
        if envs[i].box.None? { return false, ownerIncluded, puts; }
        puts := puts + [Put(RowKey(envs[i].user, version), envs[i].box.value)];
        if envs[i].user == owner { ownerIncluded := true; }
        assert envs[..i + 1] == envs[..i] + [envs[i]];
        assert Recipients(envs[..i + 1]) == Recipients(envs[..i]) + {envs[i].user};
      }
      assert envs[..|envs|] == envs;
      assert puts == PutsAt(envs, version);
      boxed := true;
    }

    method HandleRotateSecret(id: SecretId, me: UserId, req: RotateReq) returns (answer: Option<Refusal>)
      modifies vault`secrets
      ensures id !in old(vault.secrets) ==> answer == Some(NoEnvelope) && vault.secrets == old(vault.secrets)
      ensures id in old(vault.secrets) ==>
                Answered(old(vault.secrets), vault.secrets, id,
                         RotateStep(old(vault.Dir()), old(vault.secrets)[id], me, req), answer)
    {
      var has := CallerHasEnvelope(id, me);
      if !has { return Some(NoEnvelope); }
      var allowed := RequireSecretCap(id, me, Admin);
      if !allowed { return Some(CapabilityRequired); }
      var envs := req.envelopes;
      if envs == [] { return Some(EnvelopesRequired); }
      var s := vault.secrets[id];
      if req.version <= s.version { return Some(VersionMustIncrease); }
      if req.title.None? || req.payload.None? { return Some(InvalidCiphertext); }
      var boxed, ownerIncluded, puts := CollectRotationEnvelopes(envs, req.version, s.owner);
      if !boxed { return Some(InvalidEnvelope); }
      if !ownerIncluded { return Some(OwnerRequired); }
      answer := ApplyRotation(id, req, puts);
    }

    method DropMarkers(id: SecretId, dropUsers: seq<string>, dropGroups: seq<string>)
      requires id in vault.secrets
      modifies vault`secrets
      ensures var s := old(vault.secrets)[id];
              var directs, groups := s.directs - Named(dropUsers), s.groups - Named(dropGroups);
              vault.secrets == old(vault.secrets)[id := s.(directs := directs, groups := groups,
                                                           shared := directs != map[] || groups != map[])]
    {
      DropDirects(id, dropUsers);
      DropGroups(id, dropGroups);
      SyncSecretVisibility(id, false);
    }

    /** The writes of a rotation: contents and envelopes, then the dropped markers, then visibility. */
    method ApplyRotation(id: SecretId, req: RotateReq, puts: seq<Put>) returns (answer: Option<Refusal>)
      requires id in vault.secrets && req.title.Some? && req.payload.Some?
      modifies vault`secrets
      ensures var s := old(vault.secrets)[id];
              var rows := PutAll(Revoke(s.rows, s.version), puts);
              var directs := s.directs - Named(req.dropUsers);
              var groups := s.groups - Named(req.dropGroups);
              Answered(old(vault.secrets), vault.secrets, id,
                       if rows.None? then Refused(RevokedEnvelope)
                       else Done(s.(title := req.title.value, payload := req.payload.value, version := req.version,
                                    rows := rows.value, directs := directs, groups := groups,
                                    shared := directs != map[] || groups != map[])), answer)
    {
      var ok := vault.RotateSecret(id, vault.secrets[id].version, req.title.value, req.payload.value, req.version, puts);
      if !ok { return Some(RevokedEnvelope); }
      DropMarkers(id, req.dropUsers, req.dropGroups);
      return None;
    }
  }

  lemma NamedStep(ids: seq<string>, i: nat)
    requires i < |ids|
    ensures Named(ids[..i + 1]) == Named(ids[..i]) + (if Trim(ids[i]) == "" then {} else {Trim(ids[i])})
  {
    assert ids[..i + 1] == ids[..i] + [ids[i]];
  }

  lemma MarksAdd(ids: set<string>, id: string, cap: Cap)
    ensures Marks(ids + {id}, cap) == Marks(ids, cap)[id := cap]
  {}

  lemma {:induction false} FailureSticks(dir: Directory, me: UserId, ids: seq<string>, i: nat)
    requires i <= |ids| && UsersBeforeFailure(dir, me, ids[..i]).1
    ensures UsersBeforeFailure(dir, me, ids) == UsersBeforeFailure(dir, me, ids[..i])
  {
    if i == |ids| {
      assert ids[..i] == ids;
    } else {
      assert ids[..|ids| - 1][..i] == ids[..i];
      FailureSticks(dir, me, ids[..|ids| - 1], i);
    }
  }

  lemma NonEmptyLists(s: Secret, id: SecretId, directs: seq<DirectShare>, groups: seq<GroupShare>)
    requires forall u, c :: DirectShare(u, c) in directs <==> u in s.directs && s.directs[u] == c
    requires forall sh :: sh in groups ==> sh.secret == id
    requires forall g, c :: GroupShare(id, g, c) in groups <==> g in s.groups && s.groups[g] == c
    ensures directs != [] <==> s.directs != map[]
    ensures groups != [] <==> s.groups != map[]
  {
    if directs != [] { assert directs[0] in directs; assert directs[0].user in s.directs; }
    if groups != [] { assert groups[0] in groups; assert groups[0].group in s.groups; }
    if s.directs != map[] {
      var u :| u in s.directs;
      assert DirectShare(u, s.directs[u]) in directs;
    }
    if s.groups != map[] {
      var g :| g in s.groups;
      assert GroupShare(id, g, s.groups[g]) in groups;
    }
  }

  // ---- The accumulator ----------------------------------------------------------------------

  function Better(best: Cap, offered: Cap): Cap {
    if offered.Rank() > best.Rank() then offered.Normal() else best
  }

  function BestDirect(list: seq<DirectShare>, me: UserId): Cap {
    if list == [] then Empty
    else
      var best, last := BestDirect(list[..|list| - 1], me), list[|list| - 1];
      if last.user == me then Better(best, last.capability) else best
  }

  function BestGroup(list: seq<GroupShare>, inGroup: set<GroupId>, start: Cap): Cap {
    if list == [] then start
    else
      var best, last := BestGroup(list[..|list| - 1], inGroup, start), list[|list| - 1];
      if last.group in inGroup then Better(best, last.capability) else best
  }

  /** The rank of `best` is write until something better was offered, and then the best rank offered. */
  ghost predicate BestOf(best: Cap, offered3: bool, offered4: bool) {
    best == if offered4 then Admin else if offered3 then Share else Empty
  }

  ghost predicate OffersDirect(list: seq<DirectShare>, me: UserId, rank: nat) {
    exists d :: d in list && d.user == me && d.capability.Rank() == rank
  }

  ghost predicate OffersGroup(list: seq<GroupShare>, inGroup: set<GroupId>, rank: nat) {
    exists sh :: sh in list && sh.group in inGroup && sh.capability.Rank() == rank
  }

  lemma {:induction false} BestDirectIs(list: seq<DirectShare>, me: UserId)
    ensures BestOf(BestDirect(list, me), OffersDirect(list, me, 3), OffersDirect(list, me, 4))
  {
    if list != [] {
      var init, last := list[..|list| - 1], list[|list| - 1];
      BestDirectIs(init, me);
      forall r ensures OffersDirect(list, me, r) <==>
                       OffersDirect(init, me, r) || (last.user == me && last.capability.Rank() == r)
      {
        assert list == init + [last];
        if last.user == me && last.capability.Rank() == r { assert last in list; }
      }
    }
  }

  lemma {:induction false} BestGroupIs(list: seq<GroupShare>, inGroup: set<GroupId>, start: Cap, o3: bool, o4: bool)
    requires BestOf(start, o3, o4)
    ensures BestOf(BestGroup(list, inGroup, start), o3 || OffersGroup(list, inGroup, 3), o4 || OffersGroup(list, inGroup, 4))
  {
    if list != [] {
      var init, last := list[..|list| - 1], list[|list| - 1];
      BestGroupIs(init, inGroup, start, o3, o4);
      forall r ensures OffersGroup(list, inGroup, r) <==>
                       OffersGroup(init, inGroup, r) || (last.group in inGroup && last.capability.Rank() == r)
      {
        assert list == init + [last];
        if last.group in inGroup && last.capability.Rank() == r { assert last in list; }
      }
    }
  }

  lemma BestIsGranted(dir: Directory, s: Secret, me: UserId, id: SecretId, directs: seq<DirectShare>,
                      inGroup: set<GroupId>, groups: seq<GroupShare>)
    requires forall u, c :: DirectShare(u, c) in directs <==> u in s.directs && s.directs[u] == c
    requires forall g :: g in inGroup <==> me in dir.MembersOf(g)
    requires forall sh :: sh in groups ==> sh.secret == id
    requires forall g, c :: GroupShare(id, g, c) in groups <==> g in s.groups && s.groups[g] == c
    ensures BestOf(BestGroup(groups, inGroup, BestDirect(directs, me)), Granted(dir, s, me, 3), Granted(dir, s, me, 4))
  {
    BestDirectIs(directs, me);
    BestGroupIs(groups, inGroup, BestDirect(directs, me), OffersDirect(directs, me, 3), OffersDirect(directs, me, 4));
    forall r ensures Granted(dir, s, me, r) <==> OffersDirect(directs, me, r) || OffersGroup(groups, inGroup, r) {
      if me in s.directs && s.directs[me].Rank() == r { assert DirectShare(me, s.directs[me]) in directs; }
      if g :| g in s.groups && me in dir.MembersOf(g) && s.groups[g].Rank() == r {
        assert GroupShare(id, g, s.groups[g]) in groups;
      }
    }
  }
}
