/** Closing group-share gaps: the server lists who still lacks an envelope, the client seals them. */
module GroupGaps {
  import opened Capability
  import opened Crypto
  import opened Prelude
  import opened VaultModel
  import opened VaultClients
  import opened VaultRuns
  import opened VaultStore
  import Handlers

  datatype Gap = Gap(secret: SecretId, group: GroupId, user: UserId, version: nat, envelope: Box, envelopeVersion: nat)

  /** A packed envelope holds at least an ephemeral key and a nonce. Packing does not check that. */
  predicate Whole(b: Box) { b.BoxTo? || |b.bytes| >= 32 + 24 }

  ghost predicate HasWhole(s: Secret, u: UserId) { exists v :: LiveAt(s, u, v) && Whole(s.rows[RowKey(u, v)].box) }

  ghost predicate AllWhole(s: Secret, u: UserId) { forall v :: LiveAt(s, u, v) ==> Whole(s.rows[RowKey(u, v)].box) }

  predicate Selected(filter: string, id: string) { filter == "" || id == filter }

  /** The secret is shared with the group, and a member who can receive shares has no envelope. */
  ghost predicate Lacks(secrets: map<SecretId, Secret>, dir: Directory, id: SecretId, g: GroupId, u: UserId) {
    && id in secrets && g in secrets[id].groups
    && u in dir.MembersOf(g) && dir.Shareable(u) && !HasEnvelope(secrets[id], u)
  }

  /** A gap the caller could close. */
  ghost predicate IsGap(secrets: map<SecretId, Secret>, dir: Directory, me: UserId, id: SecretId, g: GroupId, u: UserId) {
    Lacks(secrets, dir, id, g, u) && HasEnvelope(secrets[id], me)
  }

  predicate Names(gap: Gap, id: SecretId, g: GroupId, u: UserId) { gap.secret == id && gap.group == g && gap.user == u }

  ghost predicate Listed(items: seq<Gap>, id: SecretId, g: GroupId, u: UserId) {
    exists i :: 0 <= i < |items| && Names(items[i], id, g, u)
  }

  ghost predicate NoneTwice(items: seq<Gap>) {
    forall i, j :: 0 <= i < j < |items| ==> !Names(items[i], items[j].secret, items[j].group, items[j].user)
  }

  /** The item carries one of the caller's own live envelopes and the secret's version. */
  ghost predicate Carried(secrets: map<SecretId, Secret>, me: UserId, gap: Gap) {
    && gap.secret in secrets && LiveAt(secrets[gap.secret], me, gap.envelopeVersion)
    && gap.envelope == secrets[gap.secret].rows[RowKey(me, gap.envelopeVersion)].box && Whole(gap.envelope)
    && gap.version == if secrets[gap.secret].version == 0 then gap.envelopeVersion else secrets[gap.secret].version
  }

  // ---- The scan -----------------------------------------------------------------------------

  method IndexBySecret(all: seq<KeyEnvelope>) returns (bySecret: map<SecretId, seq<KeyEnvelope>>)
    ensures forall e :: e in all <==> e.secret in bySecret && e in bySecret[e.secret]
    ensures forall id, e :: id in bySecret && e in bySecret[id] ==> e.secret == id
  {
    bySecret := map[];
    for i := 0 to |all|
      invariant forall e :: e in all[..i] <==> e.secret in bySecret && e in bySecret[e.secret]
      invariant forall id, e :: id in bySecret && e in bySecret[id] ==> e.secret == id
    {
      var e := all[i];
      assert all[..i + 1] == all[..i] + [e];
      bySecret := bySecret[e.secret := (if e.secret in bySecret then bySecret[e.secret] else []) + [e]];
    }
    assert all[..|all|] == all;
  }

  /** The users among the envelopes, and the caller's own envelope, the last if there are several. */
  method Inspect(envs: seq<KeyEnvelope>, me: UserId) returns (hasUser: set<UserId>, mine: Option<KeyEnvelope>)
    ensures forall u :: u in hasUser <==> exists e :: e in envs && e.user == u
    ensures mine.Some? <==> me in hasUser
    ensures mine.Some? ==> mine.value in envs && mine.value.user == me
  {
    hasUser, mine := {}, None;
    for i := 0 to |envs|
      invariant forall u :: u in hasUser <==> exists e :: e in envs[..i] && e.user == u
      invariant mine.Some? <==> me in hasUser
      invariant mine.Some? ==> mine.value in envs && mine.value.user == me
    {
      assert envs[..i + 1] == envs[..i] + [envs[i]];
      hasUser := hasUser + {envs[i].user};
      if envs[i].user == me { mine := Some(envs[i]); }
    }
    assert envs[..|envs|] == envs;
  }

  /** The inner loop: members of one group that pass the filter, lack an envelope and can receive one. */
  method MembersLacking(users: map<UserId, User>, members: seq<UserId>, filterUser: string, hasUser: set<UserId>,
                        cache: map<UserId, Option<User>>)
    returns (missing: seq<UserId>, userCache: map<UserId, Option<User>>)
    requires CachesUsers(cache, users)
    requires forall i, j :: 0 <= i < j < |members| ==> members[i] != members[j]
    ensures CachesUsers(userCache, users)
    ensures forall u :: u in missing <==> u in members && Selected(filterUser, u) && u !in hasUser && CanReceive(users, u)
    ensures forall i, j :: 0 <= i < j < |missing| ==> missing[i] != missing[j]
  {
    missing, userCache := [], cache;
    for i := 0 to |members|
      invariant CachesUsers(userCache, users)
      invariant forall u :: u in missing <==> u in members[..i] && Selected(filterUser, u) && u !in hasUser && CanReceive(users, u)
      invariant forall j, k :: 0 <= j < k < |missing| ==> missing[j] != missing[k]
    {
      var mid := members[i];
      assert members[..i + 1] == members[..i] + [mid];
      assert mid !in members[..i];
      if filterUser != "" && mid != filterUser { continue; }
      if mid in hasUser { continue; }
      if mid !in userCache {
        userCache := userCache[mid := if mid in users then Some(users[mid]) else None];
      }
      var u := userCache[mid];
      if u.None? || !u.value.onboarded || !u.value.hasKey || u.value.disabled { continue; }
      missing := missing + [mid];
    }
    assert members[..|members|] == members;
  }

  predicate CanReceive(users: map<UserId, User>, u: UserId) {
    u in users && users[u].onboarded && users[u].hasKey && !users[u].disabled
  }

  ghost predicate CachesUsers(cache: map<UserId, Option<User>>, users: map<UserId, User>) {
    forall u :: u in cache ==> cache[u] == if u in users then Some(users[u]) else None
  }

  ghost predicate CachesMembers(cache: map<GroupId, seq<UserId>>, dir: Directory) {
    forall g :: g in cache ==>
      && (forall u :: u in cache[g] <==> u in dir.MembersOf(g))
      && forall i, j :: 0 <= i < j < |cache[g]| ==> cache[g][i] != cache[g][j]
  }

  function GapsFor(sh: GroupShare, missing: seq<UserId>, version: nat, mine: KeyEnvelope): (gaps: seq<Gap>)
    ensures |gaps| == |missing|
    ensures forall i :: 0 <= i < |gaps| ==> gaps[i] == Gap(sh.secret, sh.group, missing[i], version, mine.box, mine.version)
  {
    seq(|missing|, i requires 0 <= i < |missing| => Gap(sh.secret, sh.group, missing[i], version, mine.box, mine.version))
  }

  ghost predicate Among(shares: seq<GroupShare>, id: SecretId, g: GroupId) {
    exists k :: 0 <= k < |shares| && shares[k].secret == id && shares[k].group == g
  }

  /** What a scan over these shares must find. */
  ghost predicate Found(secrets: map<SecretId, Secret>, dir: Directory, me: UserId, filterUser: string,
                        shares: seq<GroupShare>, items: seq<Gap>)
  {
    && NoneTwice(items)
    && (forall i :: 0 <= i < |items| ==> Carried(secrets, me, items[i]))
    && (forall id, g, u :: Listed(items, id, g, u) ==>
          Among(shares, id, g) && IsGap(secrets, dir, me, id, g, u) && Selected(filterUser, u) && HasWhole(secrets[id], me))
    && (forall id, g, u :: Among(shares, id, g) && Closable(secrets, dir, me, id, g, u) && Selected(filterUser, u) ==>
          Listed(items, id, g, u))
  }

  /** A gap whose caller can only be holding whole envelopes. */
  ghost predicate Closable(secrets: map<SecretId, Secret>, dir: Directory, me: UserId, id: SecretId, g: GroupId, u: UserId) {
    IsGap(secrets, dir, me, id, g, u) && AllWhole(secrets[id], me)
  }

  lemma AmongMore(shares: seq<GroupShare>, sh: GroupShare, id: SecretId, g: GroupId)
    ensures Among([sh], id, g) <==> id == sh.secret && g == sh.group
    ensures Among(shares + [sh], id, g) <==> Among(shares, id, g) || Among([sh], id, g)
  {
    assert Among([sh], sh.secret, sh.group) by { assert [sh][0].secret == sh.secret; }
    if Among(shares, id, g) {
      var k :| 0 <= k < |shares| && shares[k].secret == id && shares[k].group == g;
      assert (shares + [sh])[k] == shares[k];
    }
    assert (shares + [sh])[|shares|] == sh;
  }

  lemma ListedGaps(sh: GroupShare, missing: seq<UserId>, version: nat, mine: KeyEnvelope, id: SecretId, g: GroupId, u: UserId)
    ensures Listed(GapsFor(sh, missing, version, mine), id, g, u) <==> id == sh.secret && g == sh.group && u in missing
  {
    var gaps := GapsFor(sh, missing, version, mine);
    if id == sh.secret && g == sh.group && u in missing {
      var i :| 0 <= i < |missing| && missing[i] == u;
      assert Names(gaps[i], id, g, u);
    }
  }

  /** One gap for each member who lacks an envelope is what one marker needs. */
  lemma FoundOne(secrets: map<SecretId, Secret>, dir: Directory, me: UserId, filterUser: string,
                 sh: GroupShare, missing: seq<UserId>, version: nat, mine: KeyEnvelope)
    requires sh.secret in secrets && mine.user == me && LiveAt(secrets[sh.secret], me, mine.version)
    requires mine.box == secrets[sh.secret].rows[RowKey(me, mine.version)].box && Whole(mine.box)
    requires version == if secrets[sh.secret].version == 0 then mine.version else secrets[sh.secret].version
    requires forall u :: u in missing <==> Lacks(secrets, dir, sh.secret, sh.group, u) && Selected(filterUser, u)
    requires forall i, j :: 0 <= i < j < |missing| ==> missing[i] != missing[j]
    ensures Found(secrets, dir, me, filterUser, [sh], GapsFor(sh, missing, version, mine))
  {
    forall id, g { AmongMore([], sh, id, g); }
    forall id, g, u { ListedGaps(sh, missing, version, mine, id, g, u); }
    assert [] + [sh] == [sh];
  }

  lemma FoundNone(secrets: map<SecretId, Secret>, dir: Directory, me: UserId, filterUser: string, sh: GroupShare)
    requires sh.secret in secrets
    requires !HasEnvelope(secrets[sh.secret], me) || !AllWhole(secrets[sh.secret], me)
    ensures Found(secrets, dir, me, filterUser, [sh], [])
  {
    forall id, g ensures Among([sh], id, g) ==> id == sh.secret { AmongMore([], sh, id, g); }
  }

  lemma HasUserMeans(vault: Store, id: SecretId, envs: seq<KeyEnvelope>, u: UserId)
    requires id in vault.secrets
    requires forall e :: e in envs <==> e.secret == id && vault.IsLive(e)
    ensures (exists e :: e in envs && e.user == u) <==> HasEnvelope(vault.secrets[id], u)
  {
    var s := vault.secrets[id];
    if HasEnvelope(s, u) {
      var v :| LiveAt(s, u, v);
      var e := KeyEnvelope(id, u, v, s.rows[RowKey(u, v)].box);
      assert vault.IsLive(e) && e in envs;
    }
    if e :| e in envs && e.user == u {
      assert vault.IsLive(e) && LiveAt(s, u, e.version);
    }
  }

  /** The users who hold an envelope of the secret, and one of the caller's own. */
  method Holders(vault: Store, id: SecretId, envs: seq<KeyEnvelope>, me: UserId)
    returns (hasUser: set<UserId>, mine: Option<KeyEnvelope>)
    requires id in vault.secrets
    requires forall e :: e in envs <==> e.secret == id && vault.IsLive(e)
    ensures forall u :: u in hasUser <==> HasEnvelope(vault.secrets[id], u)
    ensures mine.Some? <==> HasEnvelope(vault.secrets[id], me)
    ensures mine.Some? ==>
              && mine.value.user == me && LiveAt(vault.secrets[id], me, mine.value.version)
              && mine.value.box == vault.secrets[id].rows[RowKey(me, mine.value.version)].box
  {
    hasUser, mine := Inspect(envs, me);
    forall u { HasUserMeans(vault, id, envs, u); }
    if mine.Some? { assert vault.IsLive(mine.value); }
  }

  lemma ListedConcat(items: seq<Gap>, gaps: seq<Gap>, id: SecretId, g: GroupId, u: UserId)
    ensures Listed(items + gaps, id, g, u) <==> Listed(items, id, g, u) || Listed(gaps, id, g, u)
  {
    var all := items + gaps;
    if i :| 0 <= i < |items| && Names(items[i], id, g, u) { assert Names(all[i], id, g, u); }
    if i :| 0 <= i < |gaps| && Names(gaps[i], id, g, u) { assert Names(all[|items| + i], id, g, u); }
    if i :| 0 <= i < |all| && Names(all[i], id, g, u) {
      assert if i < |items| then Names(items[i], id, g, u) else Names(gaps[i - |items|], id, g, u);
    }
  }

  lemma NoneTwiceConcat(items: seq<Gap>, gaps: seq<Gap>, id: SecretId, g: GroupId)
    requires NoneTwice(items) && NoneTwice(gaps)
    requires forall i :: 0 <= i < |items| ==> items[i].secret != id || items[i].group != g
    requires forall i :: 0 <= i < |gaps| ==> gaps[i].secret == id && gaps[i].group == g
    ensures NoneTwice(items + gaps)
  {}

  lemma PlacesListed(shares: seq<GroupShare>, items: seq<Gap>)
    requires forall id, g, u :: Listed(items, id, g, u) ==> Among(shares, id, g)
    ensures forall i :: 0 <= i < |items| ==> Among(shares, items[i].secret, items[i].group)
  {
    forall i | 0 <= i < |items| ensures Listed(items, items[i].secret, items[i].group, items[i].user) {
      assert Names(items[i], items[i].secret, items[i].group, items[i].user);
    }
  }

  /** What is found for one more marker adds up. */
  lemma FoundConcat(secrets: map<SecretId, Secret>, dir: Directory, me: UserId, filterUser: string,
                    shares: seq<GroupShare>, items: seq<Gap>, sh: GroupShare, gaps: seq<Gap>)
    requires Found(secrets, dir, me, filterUser, shares, items) && Found(secrets, dir, me, filterUser, [sh], gaps)
    requires !Among(shares, sh.secret, sh.group)
    ensures Found(secrets, dir, me, filterUser, shares + [sh], items + gaps)
  {
    forall id, g ensures Among(shares + [sh], id, g) <==> Among(shares, id, g) || Among([sh], id, g) {
      AmongMore(shares, sh, id, g);
    }
    forall id, g, u { ListedConcat(items, gaps, id, g, u); }
    assert NoneTwice(items + gaps) by {
      PlacesListed(shares, items);
      PlacesListed([sh], gaps);
      NoneTwiceConcat(items, gaps, sh.secret, sh.group);
    }
  }

  /** The body of the loop over the markers: nothing for a caller without a whole envelope, otherwise one gap
      for each member who lacks one. */
  method ScanShare(vault: Store, me: UserId, filterUser: string, sh: GroupShare, envs: seq<KeyEnvelope>, version: nat,
                   members: map<GroupId, seq<UserId>>, users: map<UserId, Option<User>>)
    returns (gaps: seq<Gap>, membersCache: map<GroupId, seq<UserId>>, userCache: map<UserId, Option<User>>)
    requires vault.IsMarker(sh) && version == vault.secrets[sh.secret].version
    requires forall e :: e in envs <==> e.secret == sh.secret && vault.IsLive(e)
    requires CachesMembers(members, vault.Dir()) && CachesUsers(users, vault.users)
    ensures CachesMembers(membersCache, vault.Dir()) && CachesUsers(userCache, vault.users)
    ensures Found(vault.secrets, vault.Dir(), me, filterUser, [sh], gaps)
  {
    gaps, membersCache, userCache := [], members, users;
    var hasUser, mine := Holders(vault, sh.secret, envs, me);
    if mine.None? || !Whole(mine.value.box) {
      FoundNone(vault.secrets, vault.Dir(), me, filterUser, sh);
      return;
    }
    if sh.group !in membersCache {
      var listed := vault.ListGroupMembers(sh.group);
      membersCache := membersCache[sh.group := listed];
    }
    var kv := if version == 0 then mine.value.version else version;
    var missing;
    missing, userCache := MembersLacking(vault.users, membersCache[sh.group], filterUser, hasUser, userCache);
    FoundOne(vault.secrets, vault.Dir(), me, filterUser, sh, missing, kv, mine.value);
    gaps := GapsFor(sh, missing, kv, mine.value);
  }

  /** The loop over the group markers, with envelopes, members and users looked up once each. */
  method ScanShares(vault: Store, me: UserId, filterUser: string, shares: seq<GroupShare>) returns (items: seq<Gap>)
    requires forall sh :: sh in shares ==> vault.IsMarker(sh)
    requires forall i, j :: 0 <= i < j < |shares| ==> shares[i] != shares[j]
    ensures Found(vault.secrets, vault.Dir(), me, filterUser, shares, items)
  {
    ghost var secrets, dir := vault.secrets, vault.Dir();
    items := [];
    var allEnvs := vault.ListKeyEnvelopesByTenant();
    var envsBySecret := IndexBySecret(allEnvs);
    var versions := vault.ListSecretKeyVersions();
    var membersCache: map<GroupId, seq<UserId>> := map[];
    var userCache: map<UserId, Option<User>> := map[];
    for i := 0 to |shares|
      invariant CachesMembers(membersCache, dir) && CachesUsers(userCache, dir.users)
      invariant Found(secrets, dir, me, filterUser, shares[..i], items)
    {
      var sh := shares[i];
      Snoc(shares, i);
      assert vault.IsMarker(sh);
      var envs := if sh.secret in envsBySecret then envsBySecret[sh.secret] else [];
      var gaps;
      gaps, membersCache, userCache :=
        ScanShare(vault, me, filterUser, sh, envs, versions[sh.secret], membersCache, userCache);
      MarkedOnce(vault, shares, i);
      FoundConcat(secrets, dir, me, filterUser, shares[..i], items, sh, gaps);
      items := items + gaps;
    }
    assert shares[..|shares|] == shares;
  }

  lemma MarkedOnce(vault: Store, shares: seq<GroupShare>, i: nat)
    requires forall sh :: sh in shares ==> vault.IsMarker(sh)
    requires forall j, k :: 0 <= j < k < |shares| ==> shares[j] != shares[k]
    requires i < |shares|
    ensures !Among(shares[..i], shares[i].secret, shares[i].group)
  {
    forall k | 0 <= k < i ensures shares[k].secret != shares[i].secret || shares[k].group != shares[i].group {
      assert vault.IsMarker(shares[k]) && vault.IsMarker(shares[i]);
    }
  }

  lemma AmongMarkers(vault: Store, shares: seq<GroupShare>, filterGroup: string, id: SecretId, g: GroupId)
    requires forall sh :: sh in shares <==> vault.IsMarker(sh) && Selected(filterGroup, sh.group)
    ensures Among(shares, id, g) <==> id in vault.secrets && g in vault.secrets[id].groups && Selected(filterGroup, g)
  {
    if id in vault.secrets && g in vault.secrets[id].groups && Selected(filterGroup, g) {
      var sh := GroupShare(id, g, vault.secrets[id].groups[g]);
      assert vault.IsMarker(sh);
      var k :| 0 <= k < |shares| && shares[k] == sh;
    }
    if Among(shares, id, g) {
      var k :| 0 <= k < |shares| && shares[k].secret == id && shares[k].group == g;
      assert vault.IsMarker(shares[k]);
    }
  }

  /** What a scan lists: a gap whose caller holds a whole envelope. */
  ghost predicate Scanned(secrets: map<SecretId, Secret>, dir: Directory, me: UserId, id: SecretId, g: GroupId, u: UserId) {
    IsGap(secrets, dir, me, id, g, u) && HasWhole(secrets[id], me)
  }

  /** No gap twice, each with the caller's own envelope; only scanned gaps, and all those whose caller can only
      be holding whole envelopes. */
  ghost predicate ScanResult(secrets: map<SecretId, Secret>, dir: Directory, me: UserId, filterGroup: string, filterUser: string,
                             items: seq<Gap>)
  {
    && NoneTwice(items)
    && (forall i :: 0 <= i < |items| ==> Carried(secrets, me, items[i]))
    && (forall id, g, u :: Listed(items, id, g, u) ==>
          Scanned(secrets, dir, me, id, g, u) && Selected(filterGroup, g) && Selected(filterUser, u))
    && (forall id, g, u :: Closable(secrets, dir, me, id, g, u) && Selected(filterGroup, g) && Selected(filterUser, u) ==>
          Listed(items, id, g, u))
  }

  /** The items are exactly the gaps scanned. */
  ghost predicate ExactScan(secrets: map<SecretId, Secret>, dir: Directory, me: UserId, filterGroup: string, filterUser: string,
                            items: seq<Gap>)
  {
    forall id, g, u :: Listed(items, id, g, u) <==>
      Scanned(secrets, dir, me, id, g, u) && Selected(filterGroup, g) && Selected(filterUser, u)
  }

  ghost predicate AllAligned(secrets: map<SecretId, Secret>) { forall id :: id in secrets ==> Aligned(secrets[id]) }

  /** While live rows carry the secret's version a user has at most one. */
  lemma OneEnvelopeWhenAligned(s: Secret, me: UserId)
    requires Aligned(s)
    ensures HasWhole(s, me) <==> HasEnvelope(s, me) && AllWhole(s, me)
  {
    forall v | LiveAt(s, me, v) ensures v == s.version {}
  }

  /** So the scan is exact. */
  lemma ScanExactWhenAligned(secrets: map<SecretId, Secret>, dir: Directory, me: UserId, filterGroup: string, filterUser: string,
                             items: seq<Gap>)
    requires ScanResult(secrets, dir, me, filterGroup, filterUser, items) && AllAligned(secrets)
    ensures ExactScan(secrets, dir, me, filterGroup, filterUser, items)
  {
    forall id | id in secrets ensures HasWhole(secrets[id], me) <==> HasEnvelope(secrets[id], me) && AllWhole(secrets[id], me) {
      OneEnvelopeWhenAligned(secrets[id], me);
    }
  }

  ghost predicate AllMarkers(secrets: map<SecretId, Secret>, filterGroup: string, shares: seq<GroupShare>) {
    forall id, g :: Among(shares, id, g) <==> id in secrets && g in secrets[id].groups && Selected(filterGroup, g)
  }

  lemma FoundIsScan(secrets: map<SecretId, Secret>, dir: Directory, me: UserId, filterGroup: string, filterUser: string,
                    shares: seq<GroupShare>, items: seq<Gap>)
    requires AllMarkers(secrets, filterGroup, shares) && Found(secrets, dir, me, filterUser, shares, items)
    ensures ScanResult(secrets, dir, me, filterGroup, filterUser, items)
  {
    forall id, g, u | Closable(secrets, dir, me, id, g, u) && Selected(filterGroup, g) && Selected(filterUser, u)
      ensures Listed(items, id, g, u)
    {
      assert Among(shares, id, g);
    }
  }

  lemma ListedMarkers(vault: Store, shares: seq<GroupShare>, filterGroup: string)
    requires forall sh :: sh in shares <==> vault.IsMarker(sh) && Selected(filterGroup, sh.group)
    ensures AllMarkers(vault.secrets, filterGroup, shares)
  {
    forall id, g { AmongMarkers(vault, shares, filterGroup, id, g); }
  }

  /** Lists the gaps the caller can close: secret shared with the group, caller holding a whole envelope, and a
      selected member who can receive shares but has none; exactly those, when versions are aligned. */
  method HandleGroupShareGaps(vault: Store, me: UserId, groupQuery: string, userQuery: string) returns (items: seq<Gap>)
    ensures ScanResult(vault.secrets, vault.Dir(), me, Trim(groupQuery), Trim(userQuery), items)
    ensures AllAligned(vault.secrets) ==>
              ExactScan(vault.secrets, vault.Dir(), me, Trim(groupQuery), Trim(userQuery), items)
  {
    var filterGroup, filterUser := Trim(groupQuery), Trim(userQuery);
    var shares;
    if filterGroup != "" {
      shares := vault.ListSecretGroupSharesByGroup(filterGroup);
    } else {
      shares := vault.ListSecretGroupSharesByTenant();
    }
    items := [];
    if |shares| > 0 {
      items := ScanShares(vault, me, filterUser, shares);
    }
    ListedMarkers(vault, shares, filterGroup);
    FoundIsScan(vault.secrets, vault.Dir(), me, filterGroup, filterUser, shares, items);
    if AllAligned(vault.secrets) {
      ScanExactWhenAligned(vault.secrets, vault.Dir(), me, filterGroup, filterUser, items);
    }
  }

  /** A secret whose creator sent an envelope too short to be one, shared with the group "g" of "bob". */
  function ShortCreation(): CreateReq {
    CreateReq(Some(Sealed(7, 1, 0)), Some(Sealed(7, 1, 1)), 1, [EnvelopeIn("al", 1, Some(JunkBox([])))], [], ["g"], Write, "shared")
  }

  lemma JunkRows(envs: seq<EnvelopeIn>)
    requires envs == [EnvelopeIn("al", 1, Some(JunkBox([])))]
    ensures PutAll(map[], CreatePuts(envs, 1)) == Some(map[RowKey("al", 1) := Row(JunkBox([]), false)])
  {
    var puts := CreatePuts(envs, 1);
    assert puts[..0] == [] && PutAll(map[], puts[..0]) == Some(map[]);
  }

  lemma ShortCreationStored(dir: Directory, req: CreateReq)
    requires req == ShortCreation()
    ensures var c := CreateStep(dir, "al", req);
            c.refusal.None? && c.secret.Some? && c.secret.value.version == 1
            && c.secret.value.rows == map[RowKey("al", 1) := Row(JunkBox([]), false)] && "g" in c.secret.value.groups
  {
    TrimKeeps("g");
    assert "g" in req.shareGroups && Trim("g") in Named(req.shareGroups);
    JunkRows(req.envelopes);
  }

  function BobsGroup(): Directory { Directory(map["bob" := User("bob", true, true, false)], map["g" := {"bob"}]) }

  lemma HiddenGap(dir: Directory, s: Secret)
    requires dir == BobsGroup() && s.version == 1 && "g" in s.groups
    requires s.rows == map[RowKey("al", 1) := Row(JunkBox([]), false)]
    ensures Aligned(s) && IsGap(map["s" := s], dir, "al", "s", "g", "bob") && !Scanned(map["s" := s], dir, "al", "s", "g", "bob")
  {
    assert |"bob"| != |"al"|;
    assert LiveAt(s, "al", 1);
  }

  /** Its creator holds an envelope and "bob" lacks one, but no scan of the creator ever lists that. */
  lemma ShortEnvelopeHidesGap()
    ensures exists dir, s: Secret :: CreateStep(dir, "al", ShortCreation()) == Created(Some(s), None) && Aligned(s)
              && IsGap(map["s" := s], dir, "al", "s", "g", "bob") && !Scanned(map["s" := s], dir, "al", "s", "g", "bob")
  {
    ShortCreationHides(BobsGroup(), ShortCreation());
  }

  lemma ShortCreationHides(dir: Directory, req: CreateReq)
    requires dir == BobsGroup() && req == ShortCreation()
    ensures exists s: Secret :: CreateStep(dir, "al", req) == Created(Some(s), None) && Aligned(s)
              && IsGap(map["s" := s], dir, "al", "s", "g", "bob") && !Scanned(map["s" := s], dir, "al", "s", "g", "bob")
  {
    ShortCreationStored(dir, req);
    var c := CreateStep(dir, "al", req);
    HiddenGap(dir, c.secret.value);
    assert c == Created(Some(c.secret.value), None);
  }

  /** With the envelope of "bob" revoked at the current version the gap is listed, and catching up is refused. */
  lemma RevokedRecipientRefused()
    ensures exists dir, s: Secret, req: ShareGroupReq :: Aligned(s) && Scanned(map["s" := s], dir, "al", "s", "g", "bob")
              && CatchesUp(dir, s, "al", req) && Recipients(req.envelopes) == {"bob"}
              && ShareGroupStep(dir, s, "al", req) == Refused(RevokedEnvelope)
  {
    var dir := BobsGroup();
    var s := Secret("al", true, Sealed(7, 1, 0), Sealed(7, 1, 1), 1,
                    map[RowKey("al", 1) := Row(BoxTo("al", 7), false), RowKey("bob", 1) := Row(BoxTo("bob", 7), true)],
                    map[], map["g" := Write]);
    var e := EnvelopeIn("bob", 1, Some(BoxTo("bob", 7)));
    var req := ShareGroupReq("g", [e], Empty);
    assert |"bob"| != |"al"|;
    assert LiveAt(s, "al", 1) && Whole(s.rows[RowKey("al", 1)].box);
    assert forall v :: !LiveAt(s, "bob", v);
    assert e in req.envelopes && RevokedNow(s, "bob");
    assert Scanned(map["s" := s], dir, "al", "s", "g", "bob");
    assert CatchesUp(dir, s, "al", req);
    CatchUpAcceptedIff(dir, s, "al", req);
    NothingRefused(dir, req.envelopes, s.version, req.group);
    assert ShareGroupStep(dir, s, "al", req) == Refused(RevokedEnvelope);
  }

  // ---- The client's catch-up ----------------------------------------------------------------

  datatype Place = Place(secret: SecretId, group: GroupId)

  ghost predicate Indexed(items: seq<Gap>, allowed: set<UserId>, byPlace: map<Place, seq<Gap>>) {
    && (forall p :: p in byPlace ==> byPlace[p] != [])
    && (forall p, gap :: p in byPlace && gap in byPlace[p] ==> gap in items && gap.user in allowed && p == PlaceOf(gap))
    && (forall gap :: gap in items && gap.user in allowed ==> PlaceOf(gap) in byPlace && gap in byPlace[PlaceOf(gap)])
  }

  lemma IndexedMore(items: seq<Gap>, allowed: set<UserId>, byPlace: map<Place, seq<Gap>>, g: Gap)
    requires Indexed(items, allowed, byPlace)
    ensures g.user !in allowed ==> Indexed(items + [g], allowed, byPlace)
    ensures g.user in allowed ==>
              Indexed(items + [g], allowed,
                      byPlace[PlaceOf(g) := (if PlaceOf(g) in byPlace then byPlace[PlaceOf(g)] else []) + [g]])
  {}

  /** A non-empty list of allowed gaps, all of one secret and group. */
  ghost predicate Part(items: seq<Gap>, allowed: set<UserId>, p: Place, gaps: seq<Gap>) {
    gaps != [] && forall gap :: gap in gaps ==> gap in items && gap.user in allowed && PlaceOf(gap) == p
  }

  /** The allowed gaps by secret and group, in order of first appearance; none is lost. */
  method GroupByPlace(items: seq<Gap>, allowed: set<UserId>) returns (order: seq<Place>, places: seq<seq<Gap>>)
    ensures |order| == |places| && forall k :: 0 <= k < |places| ==> Part(items, allowed, order[k], places[k])
    ensures forall j, k :: 0 <= j < k < |order| ==> order[j] != order[k]
    ensures forall gap :: gap in items && gap.user in allowed ==> exists k :: 0 <= k < |places| && gap in places[k]
  {
    order := [];
    var byPlace: map<Place, seq<Gap>> := map[];
    for i := 0 to |items|
      invariant forall p :: p in order <==> p in byPlace
      invariant forall j, k :: 0 <= j < k < |order| ==> order[j] != order[k]
      invariant Indexed(items[..i], allowed, byPlace)
    {
      var g := items[i];
      assert items[..i + 1] == items[..i] + [g];
      IndexedMore(items[..i], allowed, byPlace, g);
      if g.user !in allowed { continue; }
      var place := PlaceOf(g);
      var list := if place in byPlace then byPlace[place] else [];
      if place !in byPlace { order := order + [place]; }
      byPlace := byPlace[place := list + [g]];
    }
    assert items[..|items|] == items;
    places := Gather(order, byPlace);
    forall gap | gap in items && gap.user in allowed ensures exists k :: 0 <= k < |places| && gap in places[k] {
      NoneLost(items, allowed, order, byPlace, places, gap);
    }
  }

  /** The values of a map in the order of these keys. */
  function Gather<K, V>(order: seq<K>, m: map<K, V>): (values: seq<V>)
    requires forall k :: k in order ==> k in m
    ensures |values| == |order| && forall i :: 0 <= i < |order| ==> values[i] == m[order[i]]
  {
    seq(|order|, i requires 0 <= i < |order| && order[i] in m => m[order[i]])
  }

  lemma NoneLost(items: seq<Gap>, allowed: set<UserId>, order: seq<Place>, byPlace: map<Place, seq<Gap>>,
                 places: seq<seq<Gap>>, gap: Gap)
    requires Indexed(items, allowed, byPlace) && forall p :: p in order <==> p in byPlace
    requires |places| == |order| && forall k :: 0 <= k < |order| ==> places[k] == byPlace[order[k]]
    requires gap in items && gap.user in allowed
    ensures exists k :: 0 <= k < |places| && gap in places[k]
  {
    assert PlaceOf(gap) in order;
    var k :| 0 <= k < |order| && order[k] == PlaceOf(gap);
    assert gap in places[k];
  }

  function PlaceOf(gap: Gap): Place { Place(gap.secret, gap.group) }

  function SealAll(gaps: seq<Gap>, key: Key, version: nat): (envs: seq<EnvelopeIn>)
    ensures |envs| == |gaps|
    ensures forall i :: 0 <= i < |gaps| ==> envs[i] == EnvelopeIn(gaps[i].user, version, Some(SealDataKey(key, gaps[i].user)))
  {
    seq(|gaps|, i requires 0 <= i < |gaps| => EnvelopeIn(gaps[i].user, version, Some(SealDataKey(key, gaps[i].user))))
  }

  /** What catching up may change: new live rows for others, and markers rewritten in normal form. */
  ghost predicate CaughtUp(s: Secret, s': Secret, me: UserId) {
    && s' == s.(rows := s'.rows, groups := s'.groups, shared := s'.shared)
    && s'.groups.Keys == s.groups.Keys
    && (forall g :: g in s.groups ==> s'.groups[g].Normal() == s.groups[g].Normal())
    && (forall k :: k in s.rows && !s.rows[k].revoked ==> k in s'.rows && !s'.rows[k].revoked)
    && (forall k :: k in s'.rows && s'.rows[k].revoked ==> k in s.rows && s.rows[k].revoked)
    && (forall v :: RowKey(me, v) in s'.rows <==> RowKey(me, v) in s.rows)
    && (forall v :: RowKey(me, v) in s.rows ==> s'.rows[RowKey(me, v)] == s.rows[RowKey(me, v)])
  }

  ghost predicate AllCaughtUp(before: map<SecretId, Secret>, after: map<SecretId, Secret>, me: UserId) {
    after.Keys == before.Keys && forall id :: id in before ==> CaughtUp(before[id], after[id], me)
  }

  lemma StillEnveloped(s: Secret, s': Secret, me: UserId)
    requires CaughtUp(s, s', me)
    ensures forall u :: HasEnvelope(s, u) ==> HasEnvelope(s', u)
    ensures HasEnvelope(s', me) ==> HasEnvelope(s, me)
    ensures HasWhole(s', me) ==> HasWhole(s, me)
  {
    forall u, v | LiveAt(s, u, v) ensures LiveAt(s', u, v) {}
    forall v | LiveAt(s', me, v) ensures LiveAt(s, me, v) {}
  }

  ghost predicate RevokedNow(s: Secret, u: UserId) {
    RowKey(u, s.version) in s.rows && s.rows[RowKey(u, s.version)].revoked
  }

  /** A catch-up request names members who can receive shares, at the secret's version. */
  ghost predicate CatchesUp(dir: Directory, s: Secret, me: UserId, req: ShareGroupReq) {
    && HasEnvelope(s, me) && req.group in s.groups && req.group != "" && req.capability == Empty
    && forall e :: e in req.envelopes ==>
         e.user in dir.MembersOf(req.group) && dir.Shareable(e.user) && e.box.Some? && ShareVersion(e.version) == s.version
  }

  lemma {:induction false} NothingRefused(dir: Directory, envs: seq<EnvelopeIn>, version: nat, group: GroupId)
    requires forall e :: e in envs ==>
               e.user in dir.MembersOf(group) && dir.Shareable(e.user) && e.box.Some? && ShareVersion(e.version) == version
    ensures FirstRefusal(dir, envs, version, Some(group)).None?
  {
    if envs != [] {
      NothingRefused(dir, envs[..|envs| - 1], version, group);
      assert envs[|envs| - 1] in envs;
    }
  }

  /** Holding an envelope is enough to catch up: such a request is refused only for a revoked recipient. */
  lemma CatchUpAcceptedIff(dir: Directory, s: Secret, me: UserId, req: ShareGroupReq)
    requires CatchesUp(dir, s, me, req)
    ensures ShareGroupStep(dir, s, me, req).Done? <==> forall e :: e in req.envelopes ==> !RevokedNow(s, e.user)
  {
    NothingRefused(dir, req.envelopes, s.version, req.group);
    NoRefusal(dir, req.envelopes, s.version, Some(req.group));
    var puts := PutsAt(req.envelopes, s.version);
    PutAllWrites(s.rows, puts);
    if forall e :: e in req.envelopes ==> !RevokedNow(s, e.user) {
      forall i | 0 <= i < |puts| ensures !(puts[i].key in s.rows && s.rows[puts[i].key].revoked) {
        assert req.envelopes[i] in req.envelopes;
      }
      assert NoneRevoked(s.rows, puts);
    } else {
      var e :| e in req.envelopes && RevokedNow(s, e.user);
      var i :| 0 <= i < |puts| && req.envelopes[i] == e;
      assert puts[i].key == RowKey(e.user, s.version);
    }
  }

  /** Where no envelope of the current version is revoked, which runs preserve, every catch-up is accepted. */
  lemma CatchUpAcceptedWhenIntact(dir: Directory, s: Secret, me: UserId, req: ShareGroupReq)
    requires CatchesUp(dir, s, me, req) && CurrentIntact(s)
    ensures ShareGroupStep(dir, s, me, req).Done?
  {
    CatchUpAcceptedIff(dir, s, me, req);
  }

  /** An accepted catch-up gives every named member an envelope and leaves every capability as it ranked. */
  lemma CatchUpEffect(dir: Directory, s: Secret, me: UserId, req: ShareGroupReq)
    requires req.group in s.groups && req.capability == Empty && me !in Recipients(req.envelopes)
    requires ShareGroupStep(dir, s, me, req).Done?
    ensures CaughtUp(s, ShareGroupStep(dir, s, me, req).secret, me)
    ensures forall e :: e in req.envelopes ==> HasEnvelope(ShareGroupStep(dir, s, me, req).secret, e.user)
  {
    var s' := ShareGroupStep(dir, s, me, req).secret;
    NoRefusal(dir, req.envelopes, s.version, Some(req.group));
    var puts := PutsAt(req.envelopes, s.version);
    PutAllWrites(s.rows, puts);
    forall i | 0 <= i < |puts| ensures puts[i].key.user != me { assert req.envelopes[i] in req.envelopes; }
    forall e | e in req.envelopes ensures HasEnvelope(s', e.user) {
      var i :| 0 <= i < |puts| && req.envelopes[i] == e;
      assert puts[i].key == RowKey(e.user, s.version);
      assert LiveAt(s', e.user, s.version);
    }
  }

  lemma CaughtUpChain(a: map<SecretId, Secret>, b: map<SecretId, Secret>, c: map<SecretId, Secret>, me: UserId)
    requires AllCaughtUp(a, b, me) && AllCaughtUp(b, c, me)
    ensures AllCaughtUp(a, c, me)
  {
    forall id | id in a ensures CaughtUp(a[id], c[id], me) {
      assert CaughtUp(a[id], b[id], me) && CaughtUp(b[id], c[id], me);
    }
  }

  lemma CaughtUpSame(v: map<SecretId, Secret>, me: UserId)
    ensures AllCaughtUp(v, v, me)
  {}

  lemma OneCaughtUp(v: map<SecretId, Secret>, id: SecretId, s': Secret, me: UserId)
    requires id in v && CaughtUp(v[id], s', me)
    ensures AllCaughtUp(v, v[id := s'], me)
  {}

  /** The gap was listed for the caller in that state. */
  ghost predicate ListedFrom(before: map<SecretId, Secret>, dir: Directory, me: UserId, gap: Gap) {
    Carried(before, me, gap) && IsGap(before, dir, me, gap.secret, gap.group, gap.user)
  }

  /** Nothing stands in the way of sealing: the caller's envelope opens, and the member's was not revoked. */
  ghost predicate Sealable(before: map<SecretId, Secret>, me: UserId, gap: Gap) {
    && gap.secret in before && gap.group != "" && before[gap.secret].version >= 1
    && OpenEnvelope(gap.envelope, me).Some? && !RevokedNow(before[gap.secret], gap.user)
  }

  ghost predicate AllSealable(before: map<SecretId, Secret>, me: UserId, gaps: seq<Gap>) {
    forall i :: 0 <= i < |gaps| ==> Sealable(before, me, gaps[i])
  }

  ghost predicate Closed(secrets: map<SecretId, Secret>, gap: Gap) {
    gap.secret in secrets && HasEnvelope(secrets[gap.secret], gap.user)
  }

  ghost predicate AllClosed(secrets: map<SecretId, Secret>, gaps: seq<Gap>) {
    forall i :: 0 <= i < |gaps| ==> Closed(secrets, gaps[i])
  }

  /** Gaps of one secret and group, listed in an earlier state that has only been caught up since. */
  ghost predicate OnePlace(before: map<SecretId, Secret>, now: map<SecretId, Secret>, dir: Directory, me: UserId, gaps: seq<Gap>) {
    && AllCaughtUp(before, now, me) && gaps != []
    && forall i :: 0 <= i < |gaps| ==> ListedFrom(before, dir, me, gaps[i]) && PlaceOf(gaps[i]) == PlaceOf(gaps[0])
  }

  function CatchUpRequest(gaps: seq<Gap>, key: Key, kv: nat): ShareGroupReq
    requires gaps != []
  {
    ShareGroupReq(gaps[0].group, SealAll(gaps, key, kv), Empty)
  }

  lemma RequestShape(before: map<SecretId, Secret>, now: map<SecretId, Secret>, dir: Directory, me: UserId,
                     gaps: seq<Gap>, key: Key, kv: nat)
    requires OnePlace(before, now, dir, me, gaps)
    ensures gaps[0].secret in now && gaps[0].group in now[gaps[0].secret].groups
    ensures me !in Recipients(SealAll(gaps, key, kv)) && HasEnvelope(now[gaps[0].secret], me)
    ensures forall e :: e in SealAll(gaps, key, kv) ==>
              e.version == kv && e.box.Some? && exists i :: 0 <= i < |gaps| && gaps[i].user == e.user
  {
    var id, envs := gaps[0].secret, SealAll(gaps, key, kv);
    assert ListedFrom(before, dir, me, gaps[0]) && CaughtUp(before[id], now[id], me);
    StillEnveloped(before[id], now[id], me);
    forall e | e in envs ensures e.user != me && exists i :: 0 <= i < |gaps| && gaps[i].user == e.user {
      var i :| 0 <= i < |envs| && envs[i] == e;
      assert ListedFrom(before, dir, me, gaps[i]) && PlaceOf(gaps[i]) == PlaceOf(gaps[0]);
      assert gaps[i].user == e.user;
    }
  }

  lemma RequestEffect(before: map<SecretId, Secret>, now: map<SecretId, Secret>, dir: Directory, me: UserId,
                      gaps: seq<Gap>, key: Key, kv: nat)
    requires OnePlace(before, now, dir, me, gaps) && gaps[0].secret in now
    requires ShareGroupStep(dir, now[gaps[0].secret], me, CatchUpRequest(gaps, key, kv)).Done?
    ensures var s' := ShareGroupStep(dir, now[gaps[0].secret], me, CatchUpRequest(gaps, key, kv)).secret;
            && AllCaughtUp(now, now[gaps[0].secret := s'], me)
            && forall i :: 0 <= i < |gaps| ==> HasEnvelope(s', gaps[i].user)
  {
    var req := CatchUpRequest(gaps, key, kv);
    RequestShape(before, now, dir, me, gaps, key, kv);
    CatchUpEffect(dir, now[gaps[0].secret], me, req);
    var s' := ShareGroupStep(dir, now[gaps[0].secret], me, req).secret;
    forall i | 0 <= i < |gaps| ensures HasEnvelope(s', gaps[i].user) {
      assert req.envelopes[i] in req.envelopes;
    }
    OneCaughtUp(now, gaps[0].secret, s', me);
  }

  lemma RequestAccepted(before: map<SecretId, Secret>, now: map<SecretId, Secret>, dir: Directory, me: UserId,
                        gaps: seq<Gap>, key: Key)
    requires OnePlace(before, now, dir, me, gaps) && gaps[0].secret in now
    requires AllSealable(before, me, gaps)
    ensures ShareGroupStep(dir, now[gaps[0].secret], me, CatchUpRequest(gaps, key, gaps[0].version)).Done?
  {
    var id := gaps[0].secret;
    var req := CatchUpRequest(gaps, key, gaps[0].version);
    RequestShape(before, now, dir, me, gaps, key, gaps[0].version);
    assert Sealable(before, me, gaps[0]) && ListedFrom(before, dir, me, gaps[0]) && CaughtUp(before[id], now[id], me);
    forall e | e in req.envelopes
      ensures !RevokedNow(now[id], e.user) && e.user in dir.MembersOf(req.group) && dir.Shareable(e.user)
    {
      var i :| 0 <= i < |gaps| && gaps[i].user == e.user;
      assert Sealable(before, me, gaps[i]) && ListedFrom(before, dir, me, gaps[i]) && PlaceOf(gaps[i]) == PlaceOf(gaps[0]);
    }
    CatchUpAcceptedIff(dir, now[id], me, req);
  }

  /** A catch-up built from a copy whose envelope opened is an honest request. */
  lemma CatchUpIsHonest(copy: Secret, me: UserId, gaps: seq<Gap>, key: Key)
    requires gaps != [] && OpensTo(copy, me, key)
    ensures Honest(copy, me, DoShareGroup(CatchUpRequest(gaps, key, copy.version)))
  {
    assert SealedFor(SealAll(gaps, key, copy.version), key, copy.version);
    assert BuiltWith(copy, key, DoShareGroup(CatchUpRequest(gaps, key, copy.version)));
  }

  /** The copy that the gaps were listed from vouches for the request. */
  lemma PlaceIsHonest(before: map<SecretId, Secret>, now: map<SecretId, Secret>, dir: Directory, me: UserId,
                      gaps: seq<Gap>, key: Key)
    requires OnePlace(before, now, dir, me, gaps) && OpenEnvelope(gaps[0].envelope, me) == Some(key)
    ensures gaps[0].secret in before
    ensures before[gaps[0].secret].version >= 1 ==>
              Honest(before[gaps[0].secret], me, DoShareGroup(CatchUpRequest(gaps, key, gaps[0].version)))
  {
    assert ListedFrom(before, dir, me, gaps[0]);
    var copy := before[gaps[0].secret];
    assert LiveAt(copy, me, gaps[0].envelopeVersion);
    if copy.version >= 1 { CatchUpIsHonest(copy, me, gaps, key); }
  }

  /** What sealing one place comes to, given the secrets after the request was answered. */
  ghost predicate PlaceSealed(now: map<SecretId, Secret>, after: map<SecretId, Secret>, me: UserId, gaps: seq<Gap>, ok: bool) {
    AllCaughtUp(now, after, me) && (ok ==> AllClosed(after, gaps))
  }

  lemma PlaceAnswered(before: map<SecretId, Secret>, now: map<SecretId, Secret>, after: map<SecretId, Secret>, dir: Directory,
                      me: UserId, gaps: seq<Gap>, key: Key, kv: nat, answer: Option<Refusal>)
    requires OnePlace(before, now, dir, me, gaps) && gaps[0].secret in now
    requires Handlers.Answered(now, after, gaps[0].secret,
                               ShareGroupStep(dir, now[gaps[0].secret], me, CatchUpRequest(gaps, key, kv)), answer)
    ensures PlaceSealed(now, after, me, gaps, answer.None?)
    ensures kv == gaps[0].version && AllSealable(before, me, gaps) ==> answer.None?
  {
    CaughtUpSame(now, me);
    if kv == gaps[0].version && AllSealable(before, me, gaps) { RequestAccepted(before, now, dir, me, gaps, key); }
    if answer.None? {
      RequestEffect(before, now, dir, me, gaps, key, kv);
      forall i | 0 <= i < |gaps| ensures gaps[i].secret == gaps[0].secret { assert PlaceOf(gaps[i]) == PlaceOf(gaps[0]); }
    }
  }

  /** Opens the caller's envelope, seals the key to every member listed, and sends the request: an honest one
      for the secret as it was when the gaps were listed. */
  method SealPlace(api: Handlers.Api, me: UserId, gaps: seq<Gap>, ghost before: map<SecretId, Secret>)
    returns (ok: bool, ghost sent: Option<ShareGroupReq>, ghost answer: Option<Refusal>)
    requires OnePlace(before, api.vault.secrets, api.vault.Dir(), me, gaps)
    modifies api.vault`secrets
    ensures gaps[0].secret in before && gaps[0].secret in old(api.vault.secrets)
    ensures sent.None? ==> !ok && api.vault.secrets == old(api.vault.secrets)
    ensures sent.Some? ==>
              && ok == answer.None?
              && Handlers.Answered(old(api.vault.secrets), api.vault.secrets, gaps[0].secret,
                   ShareGroupStep(old(api.vault.Dir()), old(api.vault.secrets)[gaps[0].secret], me, sent.value), answer)
    ensures sent.Some? && before[gaps[0].secret].version >= 1 ==>
              Honest(before[gaps[0].secret], me, DoShareGroup(sent.value))
    ensures PlaceSealed(old(api.vault.secrets), api.vault.secrets, me, gaps, ok)
    ensures AllSealable(before, me, gaps) ==> ok
  {
    ghost var now, dir := api.vault.secrets, api.vault.Dir();
    var first := gaps[0];
    CaughtUpSame(now, me);
    assert ListedFrom(before, dir, me, gaps[0]);
    var dk := OpenEnvelope(first.envelope, me);
    if dk.None? {
      assert !Sealable(before, me, gaps[0]);
      return false, None, None;
    }
    var kv := if first.version != 0 then first.version else if first.envelopeVersion != 0 then first.envelopeVersion else 1;
    PlaceIsHonest(before, now, dir, me, gaps, dk.value);
    if AllSealable(before, me, gaps) { assert Sealable(before, me, gaps[0]); }
    var req := CatchUpRequest(gaps, dk.value, kv);
    var reply := api.HandleShareGroup(first.secret, me, req);
    PlaceAnswered(before, now, api.vault.secrets, dir, me, gaps, dk.value, kv, reply);
    ok, sent, answer := reply.None?, Some(req), reply;
  }

  lemma StaysClosed(before: map<SecretId, Secret>, after: map<SecretId, Secret>, me: UserId, gaps: seq<Gap>)
    requires AllCaughtUp(before, after, me) && AllClosed(before, gaps)
    ensures AllClosed(after, gaps)
  {
    forall i | 0 <= i < |gaps| ensures Closed(after, gaps[i]) {
      assert Closed(before, gaps[i]);
      StillEnveloped(before[gaps[i].secret], after[gaps[i].secret], me);
    }
  }

  /** How far sealing has come after the first `n` places. */
  ghost predicate Sealing(before: map<SecretId, Secret>, now: map<SecretId, Secret>, me: UserId,
                          places: seq<seq<Gap>>, n: nat, failed: nat)
    requires n <= |places|
  {
    && AllCaughtUp(before, now, me)
    && (failed == 0 ==> forall k :: 0 <= k < n ==> AllClosed(now, places[k]))
    && ((forall k :: 0 <= k < n ==> AllSealable(before, me, places[k])) ==> failed == 0)
  }

  lemma SealingMore(before: map<SecretId, Secret>, was: map<SecretId, Secret>, now: map<SecretId, Secret>, me: UserId,
                    places: seq<seq<Gap>>, n: nat, failed: nat, ok: bool)
    requires n < |places| && places[n] != []
    requires Sealing(before, was, me, places, n, failed) && AllCaughtUp(was, now, me)
    requires (ok ==> AllClosed(now, places[n])) && (AllSealable(before, me, places[n]) ==> ok)
    ensures Sealing(before, now, me, places, n + 1, if ok then failed else failed + |places[n]|)
  {
    CaughtUpChain(before, was, now, me);
    forall k | 0 <= k < n && AllClosed(was, places[k]) ensures AllClosed(now, places[k]) {
      StaysClosed(was, now, me, places[k]);
    }
  }

  /** The next place, and what that makes of the sealing so far. */
  method SealNext(api: Handlers.Api, me: UserId, places: seq<seq<Gap>>, n: nat, failed: nat, ghost before: map<SecretId, Secret>)
    returns (failures: nat)
    requires n < |places| && OnePlace(before, before, api.vault.Dir(), me, places[n])
    requires Sealing(before, api.vault.secrets, me, places, n, failed)
    modifies api.vault`secrets
    ensures Sealing(before, api.vault.secrets, me, places, n + 1, failures)
  {
    ghost var was := api.vault.secrets;
    StillOnePlace(before, was, api.vault.Dir(), me, places[n]);
    var ok, _, _ := SealPlace(api, me, places[n], before);
    SealingMore(before, was, api.vault.secrets, me, places, n, failed, ok);
    failures := if ok then failed else failed + |places[n]|;
  }

  /** One request per secret and group, each failure counted and passed over. */
  method SealPlaces(api: Handlers.Api, me: UserId, places: seq<seq<Gap>>) returns (failed: nat)
    requires forall k :: 0 <= k < |places| ==> OnePlace(api.vault.secrets, api.vault.secrets, api.vault.Dir(), me, places[k])
    modifies api.vault`secrets
    ensures Sealing(old(api.vault.secrets), api.vault.secrets, me, places, |places|, failed)
  {
    ghost var before, dir := api.vault.secrets, api.vault.Dir();
    failed := 0;
    CaughtUpSame(before, me);
    for i := 0 to |places|
      invariant api.vault.Dir() == dir
      invariant Sealing(before, api.vault.secrets, me, places, i, failed)
    {
      failed := SealNext(api, me, places, i, failed, before);
    }
  }

  lemma StillOnePlace(before: map<SecretId, Secret>, now: map<SecretId, Secret>, dir: Directory, me: UserId, gaps: seq<Gap>)
    requires OnePlace(before, before, dir, me, gaps) && AllCaughtUp(before, now, me)
    ensures OnePlace(before, now, dir, me, gaps)
  {}

  /** Seals the listed gaps of every user whose key is confirmed, one request per secret and group. */
  method SealGroupShareGaps(api: Handlers.Api, me: UserId, items: seq<Gap>, confirmed: set<UserId>)
    returns (failed: nat, skipped: nat)
    requires forall i :: 0 <= i < |items| ==> ListedFrom(api.vault.secrets, api.vault.Dir(), me, items[i])
    modifies api.vault`secrets
    ensures AllCaughtUp(old(api.vault.secrets), api.vault.secrets, me)
    ensures failed == 0 && skipped == 0 ==> AllClosed(api.vault.secrets, items)
    ensures AllSealable(old(api.vault.secrets), me, items) ==> failed == 0
  {
    ghost var before := api.vault.secrets;
    skipped := 0;
    for i := 0 to |items|
      invariant skipped == 0 ==> forall k :: 0 <= k < i ==> items[k].user in confirmed
    {
      if items[i].user !in confirmed { skipped := skipped + 1; }
    }
    var order, places := GroupByPlace(items, confirmed);
    forall k | 0 <= k < |places| ensures OnePlace(before, before, api.vault.Dir(), me, places[k]) {
      PlaceFrom(before, api.vault.Dir(), me, items, confirmed, order[k], places[k]);
    }
    if AllSealable(before, me, items) {
      forall k | 0 <= k < |places| ensures AllSealable(before, me, places[k]) {
        forall i | 0 <= i < |places[k]| ensures Sealable(before, me, places[k][i]) { assert places[k][i] in items; }
      }
    }
    failed := SealPlaces(api, me, places);
    if failed == 0 && skipped == 0 { AllPlacesClosed(api.vault.secrets, items, places); }
  }

  lemma PlaceFrom(before: map<SecretId, Secret>, dir: Directory, me: UserId, items: seq<Gap>,
                  allowed: set<UserId>, p: Place, gaps: seq<Gap>)
    requires forall i :: 0 <= i < |items| ==> ListedFrom(before, dir, me, items[i])
    requires Part(items, allowed, p, gaps)
    ensures OnePlace(before, before, dir, me, gaps)
  {
    CaughtUpSame(before, me);
    forall i | 0 <= i < |gaps| ensures ListedFrom(before, dir, me, gaps[i]) && PlaceOf(gaps[i]) == PlaceOf(gaps[0]) {
      assert gaps[i] in items;
    }
  }

  lemma AllPlacesClosed(secrets: map<SecretId, Secret>, items: seq<Gap>, places: seq<seq<Gap>>)
    requires forall k :: 0 <= k < |places| ==> AllClosed(secrets, places[k])
    requires forall gap :: gap in items ==> exists k :: 0 <= k < |places| && gap in places[k]
    ensures AllClosed(secrets, items)
  {
    forall i | 0 <= i < |items| ensures Closed(secrets, items[i]) {
      assert items[i] in items;
      var k :| 0 <= k < |places| && items[i] in places[k];
      assert AllClosed(secrets, places[k]);
    }
  }

  /** A scan, the client's requests, and a second scan with no other step in between. */
  method CatchUp(api: Handlers.Api, me: UserId, confirmed: set<UserId>) returns (failed: nat, skipped: nat, again: seq<Gap>)
    requires AllAligned(api.vault.secrets)
    modifies api.vault`secrets
    ensures AllCaughtUp(old(api.vault.secrets), api.vault.secrets, me)
    ensures failed == 0 && skipped == 0 ==> again == []
  {
    ghost var before, dir := api.vault.secrets, api.vault.Dir();
    var items := HandleGroupShareGaps(api.vault, me, "", "");
    assert Trim("") == "";
    forall i | 0 <= i < |items| ensures ListedFrom(before, dir, me, items[i]) {
      assert Names(items[i], items[i].secret, items[i].group, items[i].user);
      assert Listed(items, items[i].secret, items[i].group, items[i].user);
    }
    failed, skipped := SealGroupShareGaps(api, me, items, confirmed);
    again := HandleGroupShareGaps(api.vault, me, "", "");
    if failed == 0 && skipped == 0 && again != [] {
      NothingLeft(before, api.vault.secrets, dir, me, items, again);
    }
  }

  lemma StillListed(before: map<SecretId, Secret>, after: map<SecretId, Secret>, dir: Directory, me: UserId,
                    items: seq<Gap>, id: SecretId, g: GroupId, u: UserId)
    requires AllCaughtUp(before, after, me) && ExactScan(before, dir, me, "", "", items)
    requires Scanned(after, dir, me, id, g, u)
    ensures Listed(items, id, g, u)
  {
    assert CaughtUp(before[id], after[id], me);
    StillEnveloped(before[id], after[id], me);
    assert Scanned(before, dir, me, id, g, u);
  }

  lemma ClosedIsNoGap(after: map<SecretId, Secret>, dir: Directory, me: UserId, items: seq<Gap>, id: SecretId, g: GroupId, u: UserId)
    requires Listed(items, id, g, u) && AllClosed(after, items)
    ensures !IsGap(after, dir, me, id, g, u)
  {
    var i :| 0 <= i < |items| && Names(items[i], id, g, u);
    assert Closed(after, items[i]);
  }

  lemma NothingLeft(before: map<SecretId, Secret>, after: map<SecretId, Secret>, dir: Directory, me: UserId,
                    items: seq<Gap>, again: seq<Gap>)
    requires AllCaughtUp(before, after, me) && AllClosed(after, items)
    requires ExactScan(before, dir, me, "", "", items) && ScanResult(after, dir, me, "", "", again)
    ensures again == []
  {
    if again != [] {
      var gap := again[0];
      assert Names(again[0], gap.secret, gap.group, gap.user) && Listed(again, gap.secret, gap.group, gap.user);
      StillListed(before, after, dir, me, items, gap.secret, gap.group, gap.user);
      ClosedIsNoGap(after, dir, me, items, gap.secret, gap.group, gap.user);
    }
  }
}
