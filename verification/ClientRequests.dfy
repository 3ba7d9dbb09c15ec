/** What the web client and the command line build from their copy of a secret, proved to be honest requests. */
module ClientRequests {
  import opened Capability
  import opened Crypto
  import opened Prelude
  import opened VaultModel
  import opened VaultRuns
  import opened VaultClients
  import opened VaultEffects
  import opened VaultStore
  import Handlers

  /** A user as listed with a public key, or without. */
  datatype Recipient = Recipient(user: UserId, hasKey: bool)

  datatype Circle = Circle(group: GroupId, members: seq<Recipient>)

  // ---- Envelopes for a new secret -----------------------------------------------------------

  /** Everyone seen has exactly one envelope, sealed with this key at this version. */
  ghost predicate Sealing(envs: seq<EnvelopeIn>, seen: set<UserId>, dk: Key, kv: nat) {
    && SealedFor(envs, dk, kv) && Recipients(envs) == seen
    && forall i, j :: 0 <= i < j < |envs| ==> envs[i].user != envs[j].user
  }

  predicate Reachable(r: Recipient) { r.user != "" && r.hasKey }

  function Reached(rs: seq<Recipient>): set<UserId> { set r | r in rs && Reachable(r) :: r.user }

  /** Users without an id or a key, and users already seen, are passed over. */
  method AppendShareEnvelope(envs: seq<EnvelopeIn>, seen: set<UserId>, r: Recipient, dk: Key, kv: nat)
    returns (envs': seq<EnvelopeIn>, seen': set<UserId>)
    requires Sealing(envs, seen, dk, kv)
    ensures Sealing(envs', seen', dk, kv) && seen' == seen + Reached([r])
  {
    envs', seen' := envs, seen;
    assert Reached([r]) == if Reachable(r) then {r.user} else {};
    if r.user == "" || r.user in seen || !r.hasKey { return; }
    var e := EnvelopeIn(r.user, kv, Some(SealDataKey(dk, r.user)));
    assert forall i :: 0 <= i < |envs| ==> envs[i] in envs;
    envs', seen' := envs + [e], seen + {r.user};
    assert Recipients(envs') == Recipients(envs) + {r.user};
  }

  method AppendAll(envs: seq<EnvelopeIn>, seen: set<UserId>, rs: seq<Recipient>, dk: Key, kv: nat)
    returns (envs': seq<EnvelopeIn>, seen': set<UserId>)
    requires Sealing(envs, seen, dk, kv)
    ensures Sealing(envs', seen', dk, kv) && seen' == seen + Reached(rs)
  {
    envs', seen' := envs, seen;
    for i := 0 to |rs|
      invariant Sealing(envs', seen', dk, kv) && seen' == seen + Reached(rs[..i])
    {
      Snoc(rs, i);
      assert Reached(rs[..i + 1]) == Reached(rs[..i]) + Reached([rs[i]]);
      envs', seen' := AppendShareEnvelope(envs', seen', rs[i], dk, kv);
    }
    assert rs[..|rs|] == rs;
  }

  function InCircles(cs: seq<Circle>): set<UserId> { set c, u | c in cs && u in Reached(c.members) :: u }

  lemma InCirclesMore(cs: seq<Circle>, i: nat)
    requires i < |cs|
    ensures InCircles(cs[..i + 1]) == InCircles(cs[..i]) + Reached(cs[i].members)
  {
    assert forall c :: c in cs[..i + 1] <==> c in cs[..i] || c == cs[i];
  }

  method AppendCircles(envs: seq<EnvelopeIn>, seen: set<UserId>, groups: seq<Circle>, dk: Key, kv: nat)
    returns (envs': seq<EnvelopeIn>, seen': set<UserId>)
    requires Sealing(envs, seen, dk, kv)
    ensures Sealing(envs', seen', dk, kv) && seen' == seen + InCircles(groups)
  {
    envs', seen' := envs, seen;
    for i := 0 to |groups|
      invariant Sealing(envs', seen', dk, kv) && seen' == seen + InCircles(groups[..i])
    {
      InCirclesMore(groups, i);
      envs', seen' := AppendAll(envs', seen', groups[i].members, dk, kv);
    }
    assert groups[..|groups|] == groups;
  }

  /** One envelope each for the creator, some chosen users and the members of some chosen groups. */
  method SealForChosen(me: Recipient, users: seq<Recipient>, groups: seq<Circle>, dk: Key, kv: nat)
    returns (envs: seq<EnvelopeIn>)
    ensures Sealing(envs, Reached([me]) + Reached(users) + InCircles(groups), dk, kv)
  {
    var seen;
    envs, seen := AppendShareEnvelope([], {}, me, dk, kv);
    envs, seen := AppendAll(envs, seen, users, dk, kv);
    envs, seen := AppendCircles(envs, seen, groups, dk, kv);
  }

  lemma CreatedHonest(me: Recipient, dk: Key, title: Plain, payload: Plain, seen: set<UserId>, r: CreateReq)
    requires Reachable(me) && me.user in seen && Sealing(r.envelopes, seen, dk, 1) && r.version == 1
    requires r.title == Some(EncryptPayload(title, dk, 1)) && r.payload == Some(EncryptPayload(payload, dk, 1))
    ensures HonestCreate(me.user, r)
  {
    assert r.title == Some(EncryptPayload(title, dk, CreateVersion(r.version)));
    assert r.payload == Some(EncryptPayload(payload, dk, CreateVersion(r.version)));
    assert CreatedWith(me.user, r, dk);
  }

  /** Title and payload, each in its place, under this key at version one. */
  predicate Encrypts(r: CreateReq, title: Plain, payload: Plain, dk: Key) {
    r.version == 1 && r.title == Some(EncryptPayload(title, dk, 1)) && r.payload == Some(EncryptPayload(payload, dk, 1))
  }

  // ---- Creation on the web ------------------------------------------------------------------

  /** The users a creation names besides its creator. */
  function OtherIds(rs: seq<Recipient>, me: UserId): (ids: seq<string>)
    ensures forall id :: id in ids <==> id != "" && id != me && exists r :: r in rs && r.user == id
  {
    if rs == [] then []
    else
      var init, last := rs[..|rs| - 1], rs[|rs| - 1];
      assert rs == init + [last];
      if last.user == "" || last.user == me then OtherIds(init, me) else OtherIds(init, me) + [last.user]
  }

  function GroupIds(cs: seq<Circle>): (ids: seq<string>)
    ensures |ids| == |cs| && forall i :: 0 <= i < |cs| ==> ids[i] == cs[i].group
  {
    seq(|cs|, i requires 0 <= i < |cs| => cs[i].group)
  }

  /** Creating a secret under a new data key. Users without a key get no envelope; sharing with nobody but
      oneself is refused before anything is sent. */
  method PostEncryptedSecret(me: Recipient, dk: Key, title: Plain, payload: Plain, shared: bool,
                             users: seq<Recipient>, groups: seq<Circle>, capability: Cap)
    returns (req: Option<CreateReq>)
    ensures req.None? <==> shared && OtherIds(users, me.user) == [] && groups == []
    ensures req.Some? ==>
              && Recipients(req.value.envelopes) == Reached([me]) + (if shared then Reached(users) + InCircles(groups) else {})
              && req.value.shareUsers == (if shared then OtherIds(users, me.user) else [])
              && req.value.shareGroups == (if shared then GroupIds(groups) else [])
              && req.value.capability == (if shared then capability.Normal() else Empty)
              && req.value.visibility == (if shared then "shared" else "private")
              && Encrypts(req.value, title, payload, dk)
              && (Reachable(me) ==> HonestCreate(me.user, req.value))
  {
    var kv := 1;
    var us, gs := if shared then users else [], if shared then groups else [];
    var envs := SealForChosen(me, us, gs, dk, kv);
    var shareUserIds := OtherIds(us, me.user);
    if shared && shareUserIds == [] && gs == [] { return None; }
    var r := CreateReq(Some(EncryptPayload(title, dk, kv)), Some(EncryptPayload(payload, dk, kv)), kv, envs,
                       shareUserIds, GroupIds(gs), if |shareUserIds| + |gs| > 0 then capability.Normal() else Empty,
                       if shared then "shared" else "private");
    if Reachable(me) {
      assert me in [me];
      CreatedHonest(me, dk, title, payload, Reached([me]) + Reached(us) + InCircles(gs), r);
    }
    return Some(r);
  }

  // ---- Creation on the command line ---------------------------------------------------------

  /** The ids as typed: trimmed, blanks and the creator skipped, all with a key or none at all. */
  method ResolveUsers(me: UserId, ids: seq<string>, keyed: set<UserId>) returns (users: Option<seq<UserId>>)
    ensures users.Some? <==> Named(ids) - {me} <= keyed
    ensures users.Some? ==> Elems(users.value) == Named(ids) - {me}
  {
    var us: seq<UserId> := [];
    for i := 0 to |ids|
      invariant Elems(us) == Named(ids[..i]) - {me} && Named(ids[..i]) - {me} <= keyed
    {
      Handlers.NamedStep(ids, i);
      var u := Trim(ids[i]);
      if u == "" || u == me { continue; }
      if u !in keyed {
        assert u in Named(ids) - {me};
        return None;
      }
      assert Elems(us + [u]) == Elems(us) + {u};
      us := us + [u];
    }
    assert ids[..|ids|] == ids;
    return Some(us);
  }

  function Keyed(users: seq<UserId>): (rs: seq<Recipient>)
    ensures |rs| == |users| && forall i :: 0 <= i < |users| ==> rs[i] == Recipient(users[i], true)
  {
    seq(|users|, i requires 0 <= i < |users| => Recipient(users[i], true))
  }

  lemma KeyedReached(users: seq<UserId>)
    ensures Reached(Keyed(users)) == Elems(users) - {""}
  {
    var rs := Keyed(users);
    forall u | u in users && u != "" ensures u in Reached(rs) {
      var i :| 0 <= i < |users| && users[i] == u;
      assert rs[i] in rs && Reachable(rs[i]);
    }
  }

  /** The groups with a name. */
  function NamedCircles(cs: seq<Circle>): seq<Circle> {
    if cs == [] then []
    else
      var init, last := NamedCircles(cs[..|cs| - 1]), cs[|cs| - 1];
      if Trim(last.group) == "" then init else init + [Circle(Trim(last.group), last.members)]
  }

  /** One for each group whose id is not blank, trimmed, with its own members. */
  lemma {:induction false} NamedCirclesAre(cs: seq<Circle>)
    ensures forall c :: c in NamedCircles(cs) <==>
              exists d :: d in cs && Trim(d.group) != "" && c == Circle(Trim(d.group), d.members)
  {
    if cs != [] {
      var init, last := cs[..|cs| - 1], cs[|cs| - 1];
      assert forall d :: d in cs <==> d in init || d == last;
      NamedCirclesAre(init);
    }
  }

  /** Everyone the creation is sealed for; none at all if a user named has no key. */
  method BuildShareEnvelopes(me: Recipient, shareUsers: seq<string>, groups: seq<Circle>, keyed: set<UserId>, shared: bool,
                             dk: Key, kv: nat)
    returns (r: Option<(seq<EnvelopeIn>, seq<UserId>, seq<GroupId>)>)
    ensures r.Some? <==> Named(shareUsers) - {me.user} <= keyed
    ensures r.Some? ==>
              && var (envs, users, groupIds) := r.value;
              && Sealing(envs, Reached([me]) + (Named(shareUsers) - {me.user}) + InCircles(NamedCircles(groups)), dk, kv)
              && Elems(users) == Named(shareUsers) - {me.user} && groupIds == GroupIds(NamedCircles(groups))
  {
    var users := ResolveUsers(me.user, shareUsers, keyed);
    if !shared && |shareUsers| + |groups| == 0 {
      var own, seen := AppendShareEnvelope([], {}, me, dk, kv);
      assert Named(shareUsers) == {};
      return Some((own, [], []));
    }
    if users.None? { return None; }
    KeyedReached(users.value);
    var named := NamedCircles(groups);
    var envs := SealForChosen(me, Keyed(users.value), named, dk, kv);
    return Some((envs, users.value, GroupIds(named)));
  }

  /** None when a user named has no key, or sharing was asked for with nobody. */
  method SecretsCreate(me: Recipient, dk: Key, title: Plain, payload: Plain, visibility: string,
                       shareUsers: seq<string>, groups: seq<Circle>, keyed: set<UserId>)
    returns (req: Option<CreateReq>)
    ensures req.Some? <==>
              && Named(shareUsers) - {me.user} <= keyed
              && !(Trim(visibility) == "shared" && Named(shareUsers) - {me.user} == {} && NamedCircles(groups) == [])
    ensures req.Some? ==>
              && Recipients(req.value.envelopes)
                   == Reached([me]) + (Named(shareUsers) - {me.user}) + InCircles(NamedCircles(groups))
              && Elems(req.value.shareUsers) == Named(shareUsers) - {me.user}
              && req.value.shareGroups == GroupIds(NamedCircles(groups)) && req.value.capability == Empty
              && (req.value.visibility == "shared" || req.value.visibility == "private")
              && (req.value.visibility == "shared" <==> Trim(visibility) == "shared" || |req.value.shareUsers| + |req.value.shareGroups| > 0)
              && Encrypts(req.value, title, payload, dk)
              && (Reachable(me) ==> HonestCreate(me.user, req.value))
  {
    var kv := 1;
    var built := BuildShareEnvelopes(me, shareUsers, groups, keyed, Trim(visibility) == "shared", dk, kv);
    if built.None? { return None; }
    var (envs, users, groupIds) := built.value;
    assert |groupIds| == |NamedCircles(groups)|;
    var shared := Trim(visibility) == "shared" || |users| + |groupIds| > 0;
    if shared && |users| + |groupIds| == 0 { return None; }
    var r := CreateReq(Some(EncryptPayload(title, dk, kv)), Some(EncryptPayload(payload, dk, kv)), kv, envs,
                       users, groupIds, Empty, if shared then "shared" else "private");
    if Reachable(me) {
      assert me in [me];
      CreatedHonest(me, dk, title, payload, Recipients(envs), r);
    }
    return Some(r);
  }

  // ---- Sharing, updating --------------------------------------------------------------------

  /** One envelope per user, in order. */
  function SealEach(users: seq<UserId>, dk: Key, kv: nat): (envs: seq<EnvelopeIn>)
    ensures |envs| == |users| && forall i :: 0 <= i < |users| ==> envs[i] == EnvelopeIn(users[i], kv, Some(SealDataKey(dk, users[i])))
  {
    seq(|users|, i requires 0 <= i < |users| => EnvelopeIn(users[i], kv, Some(SealDataKey(dk, users[i]))))
  }

  lemma SealEachSealed(users: seq<UserId>, dk: Key, kv: nat)
    ensures SealedFor(SealEach(users, dk, kv), dk, kv)
    ensures Recipients(SealEach(users, dk, kv)) == Elems(users)
  {
    var envs := SealEach(users, dk, kv);
    forall u | u in users ensures u in Recipients(envs) {
      var i :| 0 <= i < |users| && users[i] == u;
      assert envs[i] in envs;
    }
  }

  /** The caller's envelope in the copy, opened: what every client starts from. */
  method OpenOwn(copy: Secret, me: UserId, v: nat) returns (dk: Option<Key>)
    requires LiveAt(copy, me, v)
    ensures dk == OpenEnvelope(copy.rows[RowKey(me, v)].box, me)
    ensures dk.Some? ==> OpensTo(copy, me, dk.value)
  {
    dk := OpenEnvelope(copy.rows[RowKey(me, v)].box, me);
  }

  method ShareWithUsers(copy: Secret, me: UserId, v: nat, users: seq<UserId>, capability: Cap) returns (req: Option<ShareReq>)
    requires LiveAt(copy, me, v)
    ensures req.Some? <==> OpenEnvelope(copy.rows[RowKey(me, v)].box, me).Some?
    ensures req.Some? ==>
              && Honest(copy, me, DoShare(req.value)) && Recipients(req.value.envelopes) == Elems(users)
              && req.value.capability == capability.Normal()
  {
    var dk := OpenOwn(copy, me, v);
    if dk.None? { return None; }
    SealEachSealed(users, dk.value, copy.version);
    var r := ShareReq(SealEach(users, dk.value, copy.version), capability.Normal());
    assert BuiltWith(copy, dk.value, DoShare(r));
    return Some(r);
  }

  method ShareWithGroup(copy: Secret, me: UserId, v: nat, group: GroupId, members: seq<UserId>, capability: Cap)
    returns (req: Option<ShareGroupReq>)
    requires LiveAt(copy, me, v)
    ensures req.Some? <==> group != "" && members != [] && OpenEnvelope(copy.rows[RowKey(me, v)].box, me).Some?
    ensures req.Some? ==>
              && Honest(copy, me, DoShareGroup(req.value)) && Recipients(req.value.envelopes) == Elems(members)
              && req.value.group == group && req.value.capability == capability.Normal()
  {
    if group == "" || members == [] { return None; }
    var dk := OpenOwn(copy, me, v);
    if dk.None? { return None; }
    SealEachSealed(members, dk.value, copy.version);
    var r := ShareGroupReq(group, SealEach(members, dk.value, copy.version), capability.Normal());
    assert BuiltWith(copy, dk.value, DoShareGroup(r));
    return Some(r);
  }

  /** The caller's envelope in the copy opens to this key, and the key decrypts the payload to this text. */
  ghost predicate CopyReads(copy: Secret, me: UserId, v: nat, k: Key, p: Plain) {
    && LiveAt(copy, me, v) && OpenEnvelope(copy.rows[RowKey(me, v)].box, me) == Some(k)
    && DecryptPayload(copy.payload, k, copy.version) == Some(p)
  }

  /** Decrypts, edits and encrypts again under the same key and version; an edit that changes nothing sends nothing. */
  method UpdateSecretPayload(copy: Secret, me: UserId, v: nat, mutate: Plain -> Plain) returns (req: Option<UpdateReq>)
    requires LiveAt(copy, me, v) && copy.version >= 1
    ensures req.Some? <==> exists k, p :: CopyReads(copy, me, v, k, p) && mutate(p) != p
    ensures req.Some? ==>
              && Honest(copy, me, DoUpdate(req.value)) && req.value.title == Some(copy.title)
              && exists k, p :: CopyReads(copy, me, v, k, p)
                   && req.value.payload == Some(EncryptPayload(mutate(p), k, copy.version)) && mutate(p) != p
  {
    var dk := OpenOwn(copy, me, v);
    if dk.None? { return None; }
    var p := DecryptPayload(copy.payload, dk.value, copy.version);
    if p.None? { return None; }
    assert CopyReads(copy, me, v, dk.value, p.value);
    var next := mutate(p.value);
    if next == p.value { return None; }
    var r := UpdateReq(Some(copy.title), Some(EncryptPayload(next, dk.value, copy.version)), copy.version);
    assert HonestUpdate(copy, dk.value, r);
    assert BuiltWith(copy, dk.value, DoUpdate(r));
    return Some(r);
  }

  // ---- Rotation -----------------------------------------------------------------------------

  /** Re-encrypts one plaintext under a new key and seals that key to every recipient, in order. */
  method RotateSecret(plaintext: Plain, newVersion: nat, recipients: seq<UserId>, dk: Key)
    returns (ct: Cipher, envs: seq<EnvelopeIn>)
    ensures DecryptPayload(ct, dk, newVersion) == Some(plaintext)
    ensures |envs| == |recipients|
    ensures forall i :: 0 <= i < |envs| ==>
              envs[i].user == recipients[i] && envs[i].version == newVersion
              && envs[i].box.Some? && OpenEnvelope(envs[i].box.value, recipients[i]) == Some(dk)
    ensures SealedFor(envs, dk, newVersion)
  {
    ct := EncryptPayload(plaintext, dk, newVersion);
    envs := [];
    for i := 0 to |recipients|
      invariant envs == SealEach(recipients[..i], dk, newVersion)
    {
      envs := envs + [EnvelopeIn(recipients[i], newVersion, Some(SealDataKey(dk, recipients[i])))];
      assert envs == SealEach(recipients[..i + 1], dk, newVersion);
    }
    assert recipients[..|recipients|] == recipients;
    SealEachSealed(recipients, dk, newVersion);
  }

  /** The caller's envelope in the copy opens to this key, and the key decrypts title and payload. */
  ghost predicate CopyOpens(copy: Secret, me: UserId, v: nat, k: Key) {
    && LiveAt(copy, me, v) && OpenEnvelope(copy.rows[RowKey(me, v)].box, me) == Some(k)
    && DecryptPayload(copy.title, k, copy.version).Some? && DecryptPayload(copy.payload, k, copy.version).Some?
  }

  /** The copy's own title and payload, each in its place, under the new key one version on. */
  ghost predicate Reencrypts(copy: Secret, r: RotateReq, newDk: Key) {
    && copy.title.Sealed? && copy.payload.Sealed? && r.version == copy.version + 1
    && r.title == Some(EncryptPayload(copy.title.plain, newDk, r.version))
    && r.payload == Some(EncryptPayload(copy.payload.plain, newDk, r.version))
  }

  /** Re-encrypts the copy one version on for exactly these users, each of whom needs a listed key. */
  method BuildRotation(copy: Secret, me: UserId, v: nat, keep: seq<UserId>, keyed: set<UserId>,
                       dropUsers: seq<string>, dropGroups: seq<string>, newDk: Key) returns (req: Option<RotateReq>)
    requires LiveAt(copy, me, v)
    ensures req.Some? <==> Elems(keep) <= keyed && exists k :: CopyOpens(copy, me, v, k)
    ensures req.Some? ==>
              && Honest(copy, me, DoRotate(req.value)) && Reencrypts(copy, req.value, newDk)
              && req.value.envelopes == SealEach(keep, newDk, copy.version + 1)
              && Recipients(req.value.envelopes) == Elems(keep)
              && req.value.dropUsers == dropUsers && req.value.dropGroups == dropGroups
  {
    var dk := OpenOwn(copy, me, v);
    if dk.None? { return None; }
    var title := DecryptPayload(copy.title, dk.value, copy.version);
    if title.None? { return None; }
    var payload := DecryptPayload(copy.payload, dk.value, copy.version);
    if payload.None? { return None; }
    var newKv := copy.version + 1;
    assert CopyOpens(copy, me, v, dk.value);
    for i := 0 to |keep|
      invariant forall k :: 0 <= k < i ==> keep[k] in keyed
    {
      if keep[i] !in keyed { return None; }
    }
    var envs := SealEach(keep, newDk, newKv);
    SealEachSealed(keep, newDk, newKv);
    var titleEnc, bodyEnc := EncryptPayload(title.value, newDk, newKv), EncryptPayload(payload.value, newDk, newKv);
    var r := RotateReq(Some(titleEnc), Some(bodyEnc), newKv, envs, dropUsers, dropGroups);
    assert HonestRotate(copy, dk.value, r);
    assert BuiltWith(copy, dk.value, DoRotate(r));
    return Some(r);
  }

  // ---- Taking access away -------------------------------------------------------------------

  /** What the access lists of a secret say: its owner and its markers. */
  datatype Access = Access(owner: UserId, users: set<UserId>, groups: set<GroupId>)

  datatype Lists = Lists(owner: UserId, users: seq<UserId>, groups: seq<GroupId>) {
    function Sets(): Access { Access(owner, Elems(users), Elems(groups)) }
  }

  function AccessOf(s: Secret): Access { Access(s.owner, s.directs.Keys, s.groups.Keys) }

  method FetchAccess(vault: Store, id: SecretId) returns (lists: Lists)
    requires id in vault.secrets
    ensures lists.Sets() == AccessOf(vault.secrets[id])
  {
    var s := vault.secrets[id];
    var directs := vault.ListSecretDirectShares(id);
    var groups := vault.ListSecretGroupShares(id);
    lists := Lists(s.owner, seq(|directs|, i requires 0 <= i < |directs| => directs[i].user),
                   seq(|groups|, i requires 0 <= i < |groups| => groups[i].group));
    DirectsListed(s, directs, lists.users);
    GroupsListed(s, id, groups, lists.groups);
  }

  lemma DirectsListed(s: Secret, shares: seq<DirectShare>, users: seq<UserId>)
    requires forall u, c :: DirectShare(u, c) in shares <==> u in s.directs && s.directs[u] == c
    requires |users| == |shares| && forall i :: 0 <= i < |users| ==> users[i] == shares[i].user
    ensures Elems(users) == s.directs.Keys
  {
    forall u | u in s.directs ensures u in users {
      var i :| 0 <= i < |shares| && shares[i] == DirectShare(u, s.directs[u]);
      assert users[i] == u;
    }
    forall i | 0 <= i < |users| ensures users[i] in s.directs {
      assert DirectShare(shares[i].user, shares[i].capability) in shares;
    }
  }

  lemma GroupsListed(s: Secret, id: SecretId, shares: seq<GroupShare>, groups: seq<GroupId>)
    requires forall sh :: sh in shares ==> sh.secret == id
    requires forall g, c :: GroupShare(id, g, c) in shares <==> g in s.groups && s.groups[g] == c
    requires |groups| == |shares| && forall i :: 0 <= i < |groups| ==> groups[i] == shares[i].group
    ensures Elems(groups) == s.groups.Keys
  {
    forall g | g in s.groups ensures g in groups {
      var i :| 0 <= i < |shares| && shares[i] == GroupShare(id, g, s.groups[g]);
      assert groups[i] == g;
    }
    forall i | 0 <= i < |groups| ensures groups[i] in s.groups {
      assert GroupShare(id, shares[i].group, shares[i].capability) in shares;
    }
  }

  /** The members of some groups who can receive shares. */
  ghost function MembersOfAny(dir: Directory, groups: set<GroupId>): set<UserId> {
    set g, u | g in groups && u in dir.MembersOf(g) && dir.Shareable(u) :: u
  }

  /** Who keeps access: the owner, the caller, direct shares that are not dropped, and the members of the
      remaining groups who can receive shares. */
  ghost function Keepers(access: Access, dir: Directory, me: UserId, userIds: set<UserId>, groupIds: set<GroupId>): set<UserId> {
    {access.owner, me} + (access.users - userIds) + MembersOfAny(dir, access.groups - groupIds)
  }

  /** Adds to an ordered set. */
  method Keep(keep: seq<UserId>, u: UserId) returns (keep': seq<UserId>)
    ensures Elems(keep') == Elems(keep) + {u}
  {
    keep' := if u in keep then keep else keep + [u];
  }

  /** The members of a group who can receive shares. */
  method MemberKeys(vault: Store, g: GroupId) returns (members: seq<UserId>)
    ensures forall u :: u in members <==> u in vault.Dir().MembersOf(g) && vault.Dir().Shareable(u)
  {
    var all := vault.ListGroupMembers(g);
    members := [];
    for i := 0 to |all|
      invariant forall u :: u in members <==> u in all[..i] && vault.Dir().Shareable(u)
    {
      Snoc(all, i);
      var u := all[i];
      if u in vault.users && vault.users[u].onboarded && vault.users[u].hasKey && !vault.users[u].disabled {
        members := members + [u];
      }
    }
    assert all[..|all|] == all;
  }

  method KeepAll(keep: seq<UserId>, users: seq<UserId>) returns (keep': seq<UserId>)
    ensures Elems(keep') == Elems(keep) + Elems(users)
  {
    keep' := keep;
    for i := 0 to |users|
      invariant Elems(keep') == Elems(keep) + Elems(users[..i])
    {
      Snoc(users, i);
      keep' := Keep(keep', users[i]);
    }
    assert users[..|users|] == users;
  }

  /** Direct shares that are not dropped. */
  method KeepDirects(users: seq<UserId>, keep: seq<UserId>, userIds: seq<UserId>) returns (keep': seq<UserId>)
    ensures Elems(keep') == Elems(keep) + (Elems(users) - Elems(userIds))
  {
    keep' := keep;
    for i := 0 to |users|
      invariant Elems(keep') == Elems(keep) + (Elems(users[..i]) - Elems(userIds))
    {
      Snoc(users, i);
      if users[i] !in userIds { keep' := Keep(keep', users[i]); }
    }
    assert users[..|users|] == users;
  }

  /** The members of the groups that are not dropped. */
  method KeepMembers(vault: Store, groups: seq<GroupId>, keep: seq<UserId>, groupIds: seq<GroupId>) returns (keep': seq<UserId>)
    ensures Elems(keep') == Elems(keep) + MembersOfAny(vault.Dir(), Elems(groups) - Elems(groupIds))
  {
    ghost var dir := vault.Dir();
    keep' := keep;
    for i := 0 to |groups|
      invariant Elems(keep') == Elems(keep) + MembersOfAny(dir, Elems(groups[..i]) - Elems(groupIds))
    {
      Snoc(groups, i);
      var g := groups[i];
      if g !in groupIds {
        var members := MemberKeys(vault, g);
        keep' := KeepAll(keep', members);
        assert Elems(groups[..i + 1]) - Elems(groupIds) == Elems(groups[..i]) - Elems(groupIds) + {g};
        OneGroupMore(dir, Elems(groups[..i]) - Elems(groupIds), g, Elems(members));
      } else {
        assert Elems(groups[..i + 1]) - Elems(groupIds) == Elems(groups[..i]) - Elems(groupIds);
      }
    }
    assert groups[..|groups|] == groups;
  }

  lemma OneGroupMore(dir: Directory, groups: set<GroupId>, g: GroupId, members: set<UserId>)
    requires forall u :: u in members <==> u in dir.MembersOf(g) && dir.Shareable(u)
    ensures MembersOfAny(dir, groups + {g}) == MembersOfAny(dir, groups) + members
  {}

  /** The keepers, in the order they are met. */
  method CollectKeepers(vault: Store, access: Lists, me: UserId, userIds: seq<UserId>, groupIds: seq<GroupId>)
    returns (keep: seq<UserId>)
    ensures Elems(keep) == Keepers(access.Sets(), vault.Dir(), me, Elems(userIds), Elems(groupIds))
  {
    keep := Keep([access.owner], me);
    keep := KeepDirects(access.users, keep, userIds);
    keep := KeepMembers(vault, access.groups, keep, groupIds);
  }

  /** The longest list of users that is looked at for keys. */
  const LISTED_USERS := 1000

  /** Only users who can receive shares have their keys listed; all of them, if there are not too many users. */
  ghost predicate KeysListed(dir: Directory, keyed: set<UserId>) {
    && (forall u :: u in keyed ==> dir.Shareable(u))
    && (|dir.users| <= LISTED_USERS ==> forall u :: dir.Shareable(u) ==> u in keyed)
  }

  method PublicKeys(vault: Store) returns (keyed: set<UserId>)
    ensures KeysListed(vault.Dir(), keyed)
  {
    var users := vault.ListUsers(LISTED_USERS);
    keyed := set u | u in users && vault.users[u].onboarded && vault.users[u].hasKey && !vault.users[u].disabled;
  }

  /** What an accepted rotation for these users leaves. */
  ghost predicate Rotated(s: Secret, s': Secret, keep: set<UserId>, dropUsers: seq<string>, dropGroups: seq<string>) {
    && s'.owner == s.owner && s'.version > s.version
    && (Aligned(s) ==> forall u :: HasEnvelope(s', u) <==> u in keep)
    && s'.directs == s.directs - Named(dropUsers) && s'.groups == s.groups - Named(dropGroups)
  }

  lemma RotationLeaves(dir: Directory, s: Secret, me: UserId, req: RotateReq)
    requires RotateStep(dir, s, me, req).Done?
    ensures Rotated(s, RotateStep(dir, s, me, req).secret, Recipients(req.envelopes), req.dropUsers, req.dropGroups)
  {
    var ev := Event(dir, me, DoRotate(req));
    StepVersions(s, ev);
    if Aligned(s) { StepRows(s, ev); }
  }

  /** A rotation of this copy for these users will be sent and accepted. */
  ghost predicate RotationGoes(dir: Directory, s: Secret, me: UserId, copy: Secret, v: nat, keep: set<UserId>, keyed: set<UserId>) {
    && (exists k :: CopyOpens(copy, me, v, k)) && keep <= keyed
    && HasEnvelope(s, me) && RequireCap(dir, s, me, Admin) && s.version <= copy.version
    && s.owner in keep && forall u :: u in keep ==> !RevokedAt(s.rows, u, copy.version + 1)
  }

  lemma RotationGoesIff(dir: Directory, s: Secret, me: UserId, copy: Secret, v: nat, keep: seq<UserId>, keyed: set<UserId>,
                        req: RotateReq, newDk: Key)
    requires Elems(keep) <= keyed && exists k :: CopyOpens(copy, me, v, k)
    requires Reencrypts(copy, req, newDk) && req.envelopes == SealEach(keep, newDk, copy.version + 1)
    ensures RotateStep(dir, s, me, req).Done? <==> RotationGoes(dir, s, me, copy, v, Elems(keep), keyed)
  {
    SealEachSealed(keep, newDk, copy.version + 1);
    RotateAcceptedIff(dir, s, me, req);
    if s.owner in keep { assert req.envelopes != []; }
  }

  /** With aligned versions and the secret's own owner kept, no revoked envelope and no missing owner stands in
      the way. */
  lemma GoesWhenAligned(dir: Directory, s: Secret, me: UserId, copy: Secret, v: nat, keep: set<UserId>, keyed: set<UserId>)
    requires Aligned(s) && s.owner in keep
    ensures RotationGoes(dir, s, me, copy, v, keep, keyed)
       <==> && (exists k :: CopyOpens(copy, me, v, k)) && keep <= keyed
            && HasEnvelope(s, me) && RequireCap(dir, s, me, Admin) && s.version <= copy.version
  {}

  /** The secret now holds the copy's own title and payload, each in its place, under the new key one version on. */
  ghost predicate Resealed(copy: Secret, s': Secret, newDk: Key) {
    && copy.title.Sealed? && copy.payload.Sealed? && s'.version == copy.version + 1
    && s'.title == EncryptPayload(copy.title.plain, newDk, s'.version)
    && s'.payload == EncryptPayload(copy.payload.plain, newDk, s'.version)
  }

  /** Builds the rotation and sends it: it goes through exactly if `RotationGoes` says so. */
  method SendRotation(api: Handlers.Api, id: SecretId, me: UserId, copy: Secret, v: nat, keep: seq<UserId>, keyed: set<UserId>,
                      dropUsers: seq<string>, dropGroups: seq<string>, newDk: Key) returns (done: bool)
    requires LiveAt(copy, me, v) && id in api.vault.secrets
    modifies api.vault`secrets
    ensures done <==> RotationGoes(old(api.vault.Dir()), old(api.vault.secrets)[id], me, copy, v, Elems(keep), keyed)
    ensures !done ==> api.vault.secrets == old(api.vault.secrets)
    ensures done ==>
              && id in api.vault.secrets && api.vault.secrets == old(api.vault.secrets)[id := api.vault.secrets[id]]
              && Rotated(old(api.vault.secrets)[id], api.vault.secrets[id], Elems(keep), dropUsers, dropGroups)
              && Resealed(copy, api.vault.secrets[id], newDk)
  {
    ghost var s, dir := api.vault.secrets[id], api.vault.Dir();
    var req := BuildRotation(copy, me, v, keep, keyed, dropUsers, dropGroups, newDk);
    if req.None? { return false; }
    RotationGoesIff(dir, s, me, copy, v, keep, keyed, req.value, newDk);
    var answer := api.HandleRotateSecret(id, me, req.value);
    done := answer.None?;
    if done { RotationLeaves(dir, s, me, req.value); }
  }

  /** Unsharing rotates the secret for exactly the keepers, taken from the access lists of the page or, if it has
      none, fetched. It succeeds exactly if something is to be dropped and the rotation goes through; then the
      dropped markers are gone, and from aligned versions exactly the keepers hold envelopes. */
  method UnshareSecret(api: Handlers.Api, id: SecretId, me: UserId, copy: Secret, v: nat, cached: Option<Lists>,
                       userIds: seq<UserId>, groupIds: seq<GroupId>, dropDirect: bool, confirmed: set<UserId>, newDk: Key)
    returns (done: bool, ghost keyed: set<UserId>)
    requires LiveAt(copy, me, v)
    modifies api.vault`secrets
    ensures KeysListed(old(api.vault.Dir()), keyed)
    ensures done ==> id in old(api.vault.secrets) && id in api.vault.secrets
    ensures id !in old(api.vault.secrets) ==> !done
    ensures id in old(api.vault.secrets) ==>
              var s := old(api.vault.secrets)[id];
              var keep := UnshareKeeps(s, old(api.vault.Dir()), me, cached, userIds, groupIds, dropDirect);
              done <==> userIds + groupIds != [] && RotationGoes(old(api.vault.Dir()), s, me, copy, v, keep, keyed * confirmed)
    ensures !done ==> api.vault.secrets == old(api.vault.secrets)
    ensures done ==>
              var s, s' := old(api.vault.secrets)[id], api.vault.secrets[id];
              && api.vault.secrets == old(api.vault.secrets)[id := s']
              && Rotated(s, s', UnshareKeeps(s, old(api.vault.Dir()), me, cached, userIds, groupIds, dropDirect),
                         if dropDirect then userIds else [], groupIds)
              && Resealed(copy, s', newDk)
  {
    var listed := PublicKeys(api.vault);
    done, keyed := false, listed;
    if |userIds| + |groupIds| == 0 || id !in api.vault.secrets { return; }
    ghost var s, dir := api.vault.secrets[id], api.vault.Dir();
    var drops := if dropDirect then userIds else [];
    var access;
    if cached.Some? { access := cached.value; } else { access := FetchAccess(api.vault, id); }
    var keep := CollectKeepers(api.vault, access, me, drops, groupIds);
    assert Elems(keep) == UnshareKeeps(s, dir, me, cached, userIds, groupIds, dropDirect);
    done := SendRotation(api, id, me, copy, v, keep, listed * confirmed, drops, groupIds, newDk);
  }

  /** Whom unsharing keeps: the keepers of the lists used. */
  ghost function UnshareKeeps(s: Secret, dir: Directory, me: UserId, cached: Option<Lists>,
                              userIds: seq<UserId>, groupIds: seq<GroupId>, dropDirect: bool): set<UserId> {
    Keepers(if cached.Some? then cached.value.Sets() else AccessOf(s), dir, me,
            Elems(if dropDirect then userIds else []), Elems(groupIds))
  }

  /** The id is stored as it is sent. */
  predicate Exact(ids: seq<string>) { forall i :: 0 <= i < |ids| ==> Trim(ids[i]) == ids[i] && ids[i] != "" }

  lemma ExactNamed(ids: seq<string>)
    requires Exact(ids)
    ensures Named(ids) == Elems(ids)
  {
    forall id | id in ids ensures id in Named(ids) { assert Trim(id) == id; }
  }

  /** Someone the markers of the secret entitle to an envelope. */
  ghost predicate Entitled(s: Secret, dir: Directory, u: UserId) {
    u == s.owner || u in s.directs || u in MembersOfAny(dir, s.groups.Keys)
  }

  /** Unsharing leaves envelopes with exactly those whom the remaining markers entitle, and the caller, if and
      only if the keepers come to the same with access lists of the moment as with the lists used. */
  lemma UnshareFairIff(s: Secret, s': Secret, access: Access, dir: Directory, me: UserId, drops: seq<UserId>,
                       groupIds: seq<GroupId>)
    requires Aligned(s) && Exact(drops) && Exact(groupIds)
    requires Rotated(s, s', Keepers(access, dir, me, Elems(drops), Elems(groupIds)), drops, groupIds)
    ensures (forall u :: HasEnvelope(s', u) <==> u == me || Entitled(s', dir, u))
       <==> Keepers(access, dir, me, Elems(drops), Elems(groupIds))
              == Keepers(AccessOf(s), dir, me, Elems(drops), Elems(groupIds))
  {
    ExactNamed(drops);
    ExactNamed(groupIds);
    assert s'.groups.Keys == s.groups.Keys - Elems(groupIds) && s'.directs.Keys == s.directs.Keys - Elems(drops);
    var today := Keepers(AccessOf(s), dir, me, Elems(drops), Elems(groupIds));
    assert forall u :: u in today <==> u == me || Entitled(s', dir, u);
  }

  datatype Target = OfUser(user: UserId) | OfGroup(group: GroupId)

  function Users(t: Target): seq<UserId> { if t.OfUser? then [t.user] else [] }

  function Groups(t: Target): seq<GroupId> { if t.OfGroup? then [t.group] else [] }

  /** What the owner's client sends to drop one marker, given whom it keeps. */
  ghost function Dropping(s: Secret, keep: seq<UserId>, t: Target, dk: Key): RotateReq
    requires Openable(s)
  {
    var v := s.version + 1;
    RotateReq(Some(EncryptPayload(s.title.plain, dk, v)), Some(EncryptPayload(s.payload.plain, dk, v)), v,
              SealEach(keep, dk, v), Users(t), Groups(t))
  }

  lemma DroppingAccepted(dir: Directory, s: Secret, keep: seq<UserId>, t: Target, dk: Key)
    requires Openable(s) && s.owner in keep
    ensures RotateStep(dir, s, s.owner, Dropping(s, keep, t, dk)).Done?
  {
    assert LiveAt(s, s.owner, s.version);
    var req := Dropping(s, keep, t, dk);
    SealEachSealed(keep, dk, req.version);
    PutAllWrites(Revoke(s.rows, s.version), PutsAt(req.envelopes, req.version));
  }

  /** Access lists are as old as the page. Whenever they lack a user's direct share, unsharing by the owner is
      accepted and takes that user's envelope, though the marker stays. */
  lemma StaleListTakesEnvelope(dir: Directory, s: Secret, access: Access, keep: seq<UserId>, t: Target, dk: Key, u: UserId)
    requires Openable(s) && access.owner == s.owner
    requires Elems(keep) == Keepers(access, dir, s.owner, Elems(Users(t)), Elems(Groups(t)))
    requires u in s.directs && u !in keep && u !in Named(Users(t))
    ensures var outcome := RotateStep(dir, s, s.owner, Dropping(s, keep, t, dk));
            outcome.Done? && u in outcome.secret.directs && !HasEnvelope(outcome.secret, u)
  {
    assert s.owner in Elems(keep);
    DroppingAccepted(dir, s, keep, t, dk);
    RotationLeaves(dir, s, s.owner, Dropping(s, keep, t, dk));
    SealEachSealed(keep, dk, s.version + 1);
  }

  // ---- The batch client ---------------------------------------------------------------------

  /** Lower-case user names of the users whose keys are listed. */
  ghost predicate NamesListed(dir: Directory, keyed: set<UserId>, byName: map<string, UserId>) {
    && (forall u :: u in keyed ==> u in dir.users && Lower(dir.users[u].name) in byName)
    && (forall n :: n in byName ==> byName[n] in keyed && byName[n] in dir.users && Lower(dir.users[byName[n]].name) == n)
  }

  method ByName(vault: Store, keyed: set<UserId>) returns (byName: map<string, UserId>)
    requires forall u :: u in keyed ==> u in vault.users
    ensures NamesListed(vault.Dir(), keyed, byName)
  {
    var list := Elements(keyed);
    byName := map[];
    for i := 0 to |list|
      invariant forall n :: n in byName ==>
                  byName[n] in keyed && byName[n] in vault.users && Lower(vault.users[byName[n]].name) == n
      invariant forall k :: 0 <= k < i ==> list[k] in vault.users && Lower(vault.users[list[k]].name) in byName
    {
      assert list[i] in keyed;
      byName := byName[Lower(vault.users[list[i]].name) := list[i]];
    }
    forall u | u in keyed ensures Lower(vault.users[u].name) in byName {
      var k :| 0 <= k < |list| && list[k] == u;
    }
  }

  /** The user a listed recipient is taken for: an id with a listed key, else a user of that name. */
  function Resolve(raw: string, keyed: set<UserId>, byName: map<string, UserId>): Option<UserId> {
    var r := Trim(raw);
    if r == "" then None
    else if r in keyed then Some(r)
    else if Lower(r) in byName then Some(byName[Lower(r)])
    else None
  }

  /** A recipient is taken for the listed user of that id, else for a listed user of that name in any case, and for
      nobody exactly if there is neither. */
  lemma ResolveFinds(dir: Directory, raw: string, keyed: set<UserId>, byName: map<string, UserId>)
    requires NamesListed(dir, keyed, byName)
    ensures var r, u := Trim(raw), Resolve(raw, keyed, byName);
            && (u.Some? <==> r != "" && (r in keyed || exists x :: x in keyed && x in dir.users && Lower(dir.users[x].name) == Lower(r)))
            && (u.Some? && r in keyed ==> u.value == r)
            && (u.Some? && r !in keyed ==>
                  u.value in keyed && u.value in dir.users && Lower(dir.users[u.value].name) == Lower(r))
  {}

  /** Everyone a present holder is taken for. */
  ghost function Returned(s: Secret, keyed: set<UserId>, byName: map<string, UserId>): iset<UserId> {
    iset h | HasEnvelope(s, h) && Resolve(h, keyed, byName).Some? :: Resolve(h, keyed, byName).value
  }

  method KeepRecipients(vault: Store, id: SecretId, keep: seq<UserId>, keyed: set<UserId>, byName: map<string, UserId>)
    returns (keep': seq<UserId>)
    requires id in vault.secrets
    ensures forall u :: u in keep' <==> u in keep || u in Returned(vault.secrets[id], keyed, byName)
  {
    var envs := vault.ListKeyEnvelopes(id);
    keep' := keep;
    for i := 0 to |envs|
      invariant forall u :: u in keep' <==>
                  u in keep || exists k :: 0 <= k < i && Resolve(envs[k].user, keyed, byName) == Some(u)
    {
      var r := Resolve(envs[i].user, keyed, byName);
      if r.Some? && r.value !in keep' { keep' := keep' + [r.value]; }
    }
    ReturnedAre(vault.secrets[id], id, envs, keyed, byName);
  }

  lemma ReturnedAre(s: Secret, id: SecretId, envs: seq<KeyEnvelope>, keyed: set<UserId>, byName: map<string, UserId>)
    requires forall e :: e in envs ==> LiveAt(s, e.user, e.version)
    requires forall u, v :: LiveAt(s, u, v) ==> KeyEnvelope(id, u, v, s.rows[RowKey(u, v)].box) in envs
    ensures forall u :: u in Returned(s, keyed, byName) <==>
              exists k :: 0 <= k < |envs| && Resolve(envs[k].user, keyed, byName) == Some(u)
  {
    forall k | 0 <= k < |envs| ensures HasEnvelope(s, envs[k].user) { assert LiveAt(s, envs[k].user, envs[k].version); }
    forall u | u in Returned(s, keyed, byName)
      ensures exists k :: 0 <= k < |envs| && Resolve(envs[k].user, keyed, byName) == Some(u)
    {
      var h :| HasEnvelope(s, h) && Resolve(h, keyed, byName) == Some(u);
      var v :| LiveAt(s, h, v);
      var k :| 0 <= k < |envs| && envs[k] == KeyEnvelope(id, h, v, s.rows[RowKey(h, v)].box);
    }
  }

  predicate SharedWith(s: Secret, t: Target) {
    match t case OfUser(u) => u in s.directs case OfGroup(g) => g in s.groups
  }

  method IsShared(vault: Store, id: SecretId, t: Target) returns (r: bool)
    requires id in vault.secrets
    ensures r <==> SharedWith(vault.secrets[id], t)
  {
    match t
    case OfUser(u) => r := u in vault.secrets[id].directs;
    case OfGroup(g) => r := g in vault.secrets[id].groups;
  }

  /** Everyone whom batch unsharing seals the new key for. */
  ghost predicate BatchKeeps(s: Secret, dir: Directory, me: UserId, t: Target, keyed: set<UserId>, byName: map<string, UserId>,
                             keep: set<UserId>) {
    forall u :: u in keep <==>
      u in Keepers(AccessOf(s), dir, me, Elems(Users(t)), Elems(Groups(t))) || u in Returned(s, keyed, byName)
  }

  /** Unsharing several secrets at once starts from a fresh copy, but keeps every present holder it can name:
      the marker goes, and the dropped user's envelope is sealed again. */
  method UnshareSecretByTarget(api: Handlers.Api, id: SecretId, me: UserId, v: nat, target: Target, newDk: Key)
    returns (done: bool, ghost keyed: set<UserId>, ghost byName: map<string, UserId>, ghost keep: set<UserId>)
    requires id in api.vault.secrets ==> LiveAt(api.vault.secrets[id], me, v)
    modifies api.vault`secrets
    ensures KeysListed(old(api.vault.Dir()), keyed) && NamesListed(old(api.vault.Dir()), keyed, byName)
    ensures done ==> id in old(api.vault.secrets) && id in api.vault.secrets
    ensures id in old(api.vault.secrets) && SharedWith(old(api.vault.secrets)[id], target) ==>
              var s := old(api.vault.secrets)[id];
              && BatchKeeps(s, old(api.vault.Dir()), me, target, keyed, byName, keep)
              && (done <==> RotationGoes(old(api.vault.Dir()), s, me, s, v, keep, keyed))
    ensures !done ==> api.vault.secrets == old(api.vault.secrets)
    ensures done ==>
              var s, s' := old(api.vault.secrets)[id], api.vault.secrets[id];
              && SharedWith(s, target) && api.vault.secrets == old(api.vault.secrets)[id := s']
              && Unshared(s, s', old(api.vault.Dir()), me, target, keyed, byName) && Resealed(s, s', newDk)
  {
    var keys := PublicKeys(api.vault);
    var names := ByName(api.vault, keys);
    done, keyed, byName, keep := false, keys, names, {};
    if id !in api.vault.secrets { return; }
    var userIds, groupIds := Users(target), Groups(target);
    var shared := IsShared(api.vault, id, target);
    if !shared { return; }
    var access := FetchAccess(api.vault, id);
    var kept := CollectKeepers(api.vault, access, me, userIds, groupIds);
    kept := KeepRecipients(api.vault, id, kept, keys, names);
    keep := Elems(kept);
    done := SendRotation(api, id, me, api.vault.secrets[id], v, kept, keys, userIds, groupIds, newDk);
  }

  /** What batch unsharing leaves: the marker is gone, and envelopes are held by the keepers and by everyone a
      present holder is taken for. */
  ghost predicate Unshared(s: Secret, s': Secret, dir: Directory, me: UserId, t: Target,
                           keyed: set<UserId>, byName: map<string, UserId>) {
    && s'.directs == s.directs - Named(Users(t)) && s'.groups == s.groups - Named(Groups(t))
    && (Aligned(s) ==>
          forall u :: HasEnvelope(s', u) <==>
            u in Keepers(AccessOf(s), dir, me, Elems(Users(t)), Elems(Groups(t))) || u in Returned(s, keyed, byName))
  }

  /** Whoever holds an envelope and has the key listed is returned to it. */
  lemma HolderReturned(s: Secret, keyed: set<UserId>, byName: map<string, UserId>, u: UserId)
    requires HasEnvelope(s, u) && u != "" && Trim(u) == u && u in keyed
    ensures u in Returned(s, keyed, byName)
  {
    assert Resolve(u, keyed, byName) == Some(u);
  }

  /** So batch unsharing leaves an envelope with a user whom nothing else keeps exactly if a present holder is
      taken for them, and takes it from such a holder exactly if their key is not listed. */
  lemma BatchTakesAccessIff(s: Secret, s': Secret, dir: Directory, me: UserId, t: Target,
                            keyed: set<UserId>, byName: map<string, UserId>, u: UserId)
    requires Aligned(s) && Unshared(s, s', dir, me, t, keyed, byName) && NamesListed(dir, keyed, byName)
    requires u != "" && Trim(u) == u && u !in Keepers(AccessOf(s), dir, me, Elems(Users(t)), Elems(Groups(t)))
    ensures HasEnvelope(s', u) <==> u in Returned(s, keyed, byName)
    ensures HasEnvelope(s, u) ==> (HasEnvelope(s', u) <==> u in keyed)
  {
    if HasEnvelope(s, u) && u in keyed {
      HolderReturned(s, keyed, byName, u);
    }
    forall h | HasEnvelope(s, h) && Resolve(h, keyed, byName).Some? ensures Resolve(h, keyed, byName).value in keyed {}
  }

  /** The owner drops a holder whose key is listed, keeping whom the batch client keeps. */
  ghost predicate DropsHolder(dir: Directory, s: Secret, keep: seq<UserId>, keyed: set<UserId>, byName: map<string, UserId>,
                              u: UserId) {
    && Openable(s) && HasEnvelope(s, u) && u in keyed && u != "" && Trim(u) == u
    && KeysListed(dir, keyed) && NamesListed(dir, keyed, byName)
    && forall x :: x in keep <==> x in Keepers(AccessOf(s), dir, s.owner, {u}, {}) || x in Returned(s, keyed, byName)
  }

  /** It is always accepted, the marker goes and the envelope stays. */
  lemma BatchLeavesAccess(dir: Directory, s: Secret, keep: seq<UserId>, keyed: set<UserId>, byName: map<string, UserId>,
                          u: UserId, dk: Key)
    requires DropsHolder(dir, s, keep, keyed, byName, u)
    ensures var outcome := RotateStep(dir, s, s.owner, Dropping(s, keep, OfUser(u), dk));
            outcome.Done? && u !in outcome.secret.directs && HasEnvelope(outcome.secret, u)
  {
    var req := Dropping(s, keep, OfUser(u), dk);
    DroppingAccepted(dir, s, keep, OfUser(u), dk);
    RotationLeaves(dir, s, s.owner, req);
    SealEachSealed(keep, dk, req.version);
    HolderReturned(s, keyed, byName, u);
    assert u in [u];
  }

  lemma HoldersReturned(s: Secret, keyed: set<UserId>, byName: map<string, UserId>)
    requires forall u :: HasEnvelope(s, u) ==> u in keyed && u != "" && Trim(u) == u
    ensures forall u :: u in Returned(s, keyed, byName) <==> HasEnvelope(s, u)
  {
    forall u | HasEnvelope(s, u) ensures u in Returned(s, keyed, byName) { HolderReturned(s, keyed, byName, u); }
  }

  /** A secret of al's, shared with bob directly. */
  ghost function SharedWithBob(): (s: Secret)
    ensures Openable(s) && s.owner == "al" && s.directs == map["bob" := Read] && s.groups == map[]
    ensures forall u :: HasEnvelope(s, u) <==> u == "al" || u == "bob"
  {
    var s := Secret("al", true, Sealed(7, 1, 0), Sealed(7, 1, 1), 1,
                    map[RowKey("al", 1) := Row(BoxTo("al", 7), false), RowKey("bob", 1) := Row(BoxTo("bob", 7), false)],
                    map["bob" := Read], map[]);
    assert LiveAt(s, "al", 1) && LiveAt(s, "bob", 1);
    s
  }

  ghost function AlAndBob(): Directory {
    Directory(map["al" := User("al", true, true, false), "bob" := User("bob", true, true, false)], map[])
  }

  lemma NamesOfAlAndBob()
    ensures NamesListed(AlAndBob(), {"al", "bob"}, map["al" := "al", "bob" := "bob"])
    ensures forall u :: AlAndBob().Shareable(u) <==> u == "al" || u == "bob"
  {
    assert |"bob"| != |"al"|;
    assert Lower("al") == "al" && Lower("bob") == "bob";
  }

  lemma OnlyAlKept()
    ensures Keepers(AccessOf(SharedWithBob()), AlAndBob(), "al", {"bob"}, {}) == {"al"}
  {}

  lemma BobDropped(keyed: set<UserId>, byName: map<string, UserId>)
    requires keyed == {"al", "bob"} && NamesListed(AlAndBob(), keyed, byName)
    ensures DropsHolder(AlAndBob(), SharedWithBob(), ["al", "bob"], keyed, byName, "bob")
  {
    NamesOfAlAndBob();
    TrimKeeps("al");
    TrimKeeps("bob");
    HoldersReturned(SharedWithBob(), keyed, byName);
    OnlyAlKept();
  }

  /** So it happens to a user whom nothing but the dropped marker entitles. */
  lemma BatchInstance()
    ensures exists keep: seq<UserId>, keyed: set<UserId>, byName: map<string, UserId> ::
              && DropsHolder(AlAndBob(), SharedWithBob(), keep, keyed, byName, "bob")
              && "bob" !in Keepers(AccessOf(SharedWithBob()), AlAndBob(), "al", {"bob"}, {})
  {
    NamesOfAlAndBob();
    BobDropped({"al", "bob"}, map["al" := "al", "bob" := "bob"]);
    OnlyAlKept();
    assert |"bob"| != |"al"|;
  }

  /** And lists made before "bob" was given a share, with a group to drop, lack his. */
  lemma StaleListInstance()
    ensures var s, access, t := SharedWithBob(), Access("al", {}, {"g"}), OfGroup("g");
            && Openable(s) && access.owner == s.owner && "bob" in s.directs && "bob" !in Named(Users(t))
            && "bob" !in Keepers(access, AlAndBob(), s.owner, Elems(Users(t)), Elems(Groups(t)))
  {
    assert |"bob"| != |"al"|;
    assert "g" in Groups(OfGroup("g"));
  }
}
