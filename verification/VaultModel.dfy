/** The vault's state for one tenant, and what each handler does to one secret. */
module VaultModel {
  import opened Capability
  import opened Crypto
  import opened Prelude

  type GroupId = string
  type SecretId = string

  /** Envelope rows are keyed by user and key version; a revoked row stays. */
  datatype RowKey = RowKey(user: UserId, version: nat)
  datatype Row = Row(box: Box, revoked: bool)
  type Rows = map<RowKey, Row>

  datatype Secret = Secret(
    owner: UserId, shared: bool,
    title: Cipher, payload: Cipher, version: nat,
    rows: Rows, directs: map<UserId, Cap>, groups: map<GroupId, Cap>)

  datatype User = User(name: string, onboarded: bool, hasKey: bool, disabled: bool)

  datatype Directory = Directory(users: map<UserId, User>, members: map<GroupId, set<UserId>>) {
    function MembersOf(g: GroupId): set<UserId> { if g in members then members[g] else {} }

    predicate Shareable(u: UserId) {
      u in users && users[u].onboarded && users[u].hasKey && !users[u].disabled
    }
  }

  // ---- Requests and answers -----------------------------------------------------------------

  /** An envelope as sent; the box is absent when the transfer encoding is malformed. */
  datatype EnvelopeIn = EnvelopeIn(user: UserId, version: nat, box: Option<Box>)

  datatype ShareReq = ShareReq(envelopes: seq<EnvelopeIn>, capability: Cap)
  datatype ShareGroupReq = ShareGroupReq(group: GroupId, envelopes: seq<EnvelopeIn>, capability: Cap)
  datatype UpdateReq = UpdateReq(title: Option<Cipher>, payload: Option<Cipher>, version: nat)
  datatype RotateReq = RotateReq(title: Option<Cipher>, payload: Option<Cipher>, version: nat,
                                 envelopes: seq<EnvelopeIn>, dropUsers: seq<string>, dropGroups: seq<string>)
  datatype CreateReq = CreateReq(title: Option<Cipher>, payload: Option<Cipher>, version: nat,
                                 envelopes: seq<EnvelopeIn>, shareUsers: seq<string>, shareGroups: seq<string>,
                                 capability: Cap, visibility: string)

  datatype Refusal =
    | NoEnvelope | CapabilityRequired | AboveOwn | GroupRequired | NotInGroup
    | RecipientNotOnboarded | InvalidEnvelope | VersionMismatch | VersionMustIncrease
    | InvalidCiphertext | EnvelopesRequired | OwnerRequired | RevokedEnvelope | SharesRequired

  datatype Outcome = Done(secret: Secret) | Refused(why: Refusal)

  // ---- Access -------------------------------------------------------------------------------

  ghost predicate LiveAt(s: Secret, u: UserId, v: nat) {
    RowKey(u, v) in s.rows && !s.rows[RowKey(u, v)].revoked
  }

  ghost predicate HasEnvelope(s: Secret, u: UserId) { exists v :: LiveAt(s, u, v) }

  /** Some direct or group marker grants the user exactly this rank. */
  ghost predicate Granted(dir: Directory, s: Secret, u: UserId, rank: nat) {
    || (u in s.directs && s.directs[u].Rank() == rank)
    || exists g :: g in s.groups && u in dir.MembersOf(g) && s.groups[g].Rank() == rank
  }

  /** Independent of the order in which markers are listed. `None` is the code's empty string. */
  ghost function EffectiveCapability(dir: Directory, s: Secret, u: UserId): Option<Cap> {
    if u == s.owner then Some(Admin)
    else if Granted(dir, s, u, 4) then Some(Admin)
    else if Granted(dir, s, u, 3) then Some(Share)
    else if HasEnvelope(s, u) then Some(Read)
    else None
  }

  ghost predicate RequireCap(dir: Directory, s: Secret, u: UserId, want: Cap) {
    var have := EffectiveCapability(dir, s, u);
    have.Some? && have.value.AtLeast(want)
  }

  /** The code compares the empty capability like any other: it ranks as write. */
  ghost predicate MayGrant(dir: Directory, s: Secret, u: UserId, want: Cap) {
    var have := EffectiveCapability(dir, s, u);
    (if have.Some? then have.value else Empty).AtLeast(want)
  }

  // ---- Envelope rows ------------------------------------------------------------------------

  datatype Put = Put(key: RowKey, box: Box)

  /** Writes in order; none at all if one would revive a revoked row. */
  function PutAll(rows: Rows, puts: seq<Put>): Option<Rows> {
    if puts == [] then Some(rows)
    else
      var last := puts[|puts| - 1];
      match PutAll(rows, puts[..|puts| - 1])
      case None => None
      case Some(m) => if last.key in m && m[last.key].revoked then None else Some(m[last.key := Row(last.box, false)])
  }

  function Revoke(rows: Rows, version: nat): Rows {
    map k | k in rows :: if k.version == version then Row(rows[k].box, true) else rows[k]
  }

  // ---- Envelope checks ----------------------------------------------------------------------

  /** Zero stands for version one. */
  function ShareVersion(v: nat): nat { if v == 0 then 1 else v }

  /** Why a share refuses this envelope, if it does; `group` is given for a group share. */
  function EnvelopeRefusal(dir: Directory, e: EnvelopeIn, version: nat, group: Option<GroupId>): Option<Refusal> {
    if group.Some? && e.user !in dir.MembersOf(group.value) then Some(NotInGroup)
    else if !dir.Shareable(e.user) then Some(RecipientNotOnboarded)
    else if e.box.None? then Some(InvalidEnvelope)
    else if ShareVersion(e.version) != version then Some(VersionMismatch)
    else None
  }

  function FirstRefusal(dir: Directory, envs: seq<EnvelopeIn>, version: nat, group: Option<GroupId>): (r: Option<Refusal>)
  {
    if envs == [] then None
    else
      var earlier := FirstRefusal(dir, envs[..|envs| - 1], version, group);
      if earlier.Some? then earlier else EnvelopeRefusal(dir, envs[|envs| - 1], version, group)
  }

  predicate AllBoxed(envs: seq<EnvelopeIn>) { forall i :: 0 <= i < |envs| ==> envs[i].box.Some? }

  /** The rows a list of well-formed envelopes writes at one version. */
  function PutsAt(envs: seq<EnvelopeIn>, version: nat): (puts: seq<Put>)
    requires AllBoxed(envs)
    ensures |puts| == |envs|
    ensures forall i :: 0 <= i < |envs| ==> puts[i] == Put(RowKey(envs[i].user, version), envs[i].box.value)
  {
    seq(|envs|, i requires 0 <= i < |envs| => Put(RowKey(envs[i].user, version), envs[i].box.value))
  }

  lemma {:induction false} NoRefusal(dir: Directory, envs: seq<EnvelopeIn>, version: nat, group: Option<GroupId>)
    requires FirstRefusal(dir, envs, version, group).None?
    ensures AllBoxed(envs)
    ensures forall e :: e in envs ==> EnvelopeRefusal(dir, e, version, group).None?
  {
    if envs != [] {
      NoRefusal(dir, envs[..|envs| - 1], version, group);
    }
  }

  function Recipients(envs: seq<EnvelopeIn>): set<UserId> { set e | e in envs :: e.user }

  // ---- Handlers -----------------------------------------------------------------------------

  ghost function ShareStep(dir: Directory, s: Secret, me: UserId, req: ShareReq): Outcome {
    if !HasEnvelope(s, me) then Refused(NoEnvelope)
    else if !RequireCap(dir, s, me, Share) then Refused(CapabilityRequired)
    else
      var cap := req.capability.Normal();
      if !MayGrant(dir, s, me, cap) then Refused(AboveOwn)
      else
        var refusal := FirstRefusal(dir, req.envelopes, s.version, None);
        if refusal.Some? then Refused(refusal.value)
        else
          NoRefusal(dir, req.envelopes, s.version, None);
          var rows := PutAll(s.rows, PutsAt(req.envelopes, s.version));
          if rows.None? then Refused(RevokedEnvelope)
          else
            var marked := map u | u in s.directs.Keys + (Recipients(req.envelopes) - {me}) ::
                            if u in Recipients(req.envelopes) - {me} then cap else s.directs[u];
            Done(s.(rows := rows.value, directs := marked, shared := true))
  }

  /** The capability a group share writes: as asked, or on catch-up the one already there. */
  function GroupShareCap(s: Secret, req: ShareGroupReq): Cap {
    if req.capability != Empty then req.capability.Normal()
    else if req.group in s.groups then s.groups[req.group].Normal()
    else Write
  }

  ghost function ShareGroupStep(dir: Directory, s: Secret, me: UserId, req: ShareGroupReq): Outcome {
    var alreadyShared := req.group in s.groups;
    var cap := GroupShareCap(s, req);
    if !HasEnvelope(s, me) then Refused(NoEnvelope)
    else if req.group == "" then Refused(GroupRequired)
    else if !alreadyShared && !RequireCap(dir, s, me, Share) then Refused(CapabilityRequired)
    else if (!alreadyShared || req.capability != Empty) && !MayGrant(dir, s, me, cap) then Refused(AboveOwn)
    else
      var refusal := FirstRefusal(dir, req.envelopes, s.version, Some(req.group));
      if refusal.Some? then Refused(refusal.value)
      else
        NoRefusal(dir, req.envelopes, s.version, Some(req.group));
        var rows := PutAll(s.rows, PutsAt(req.envelopes, s.version));
        if rows.None? then Refused(RevokedEnvelope)
        else Done(s.(rows := rows.value, groups := s.groups[req.group := cap], shared := true))
  }

  ghost function UpdateStep(dir: Directory, s: Secret, me: UserId, req: UpdateReq): Outcome {
    if !HasEnvelope(s, me) then Refused(NoEnvelope)
    else if !RequireCap(dir, s, me, Write) then Refused(CapabilityRequired)
    else if req.version != 0 && req.version != s.version then Refused(VersionMismatch)
    else if req.title.None? || req.payload.None? then Refused(InvalidCiphertext)
    else Done(s.(title := req.title.value, payload := req.payload.value))
  }

  /** The identifiers named by a list of strings: trimmed, empty ones skipped. */
  function Named(ids: seq<string>): set<string> { set id | id in ids && Trim(id) != "" :: Trim(id) }

  ghost function RotateStep(dir: Directory, s: Secret, me: UserId, req: RotateReq): Outcome {
    if !HasEnvelope(s, me) then Refused(NoEnvelope)
    else if !RequireCap(dir, s, me, Admin) then Refused(CapabilityRequired)
    else if req.envelopes == [] then Refused(EnvelopesRequired)
    else if req.version <= s.version then Refused(VersionMustIncrease)
    else if req.title.None? || req.payload.None? then Refused(InvalidCiphertext)
    else if !AllBoxed(req.envelopes) then Refused(InvalidEnvelope)
    else if s.owner !in Recipients(req.envelopes) then Refused(OwnerRequired)
    else
      var rows := PutAll(Revoke(s.rows, s.version), PutsAt(req.envelopes, req.version));
      if rows.None? then Refused(RevokedEnvelope)
      else
        var directs := s.directs - Named(req.dropUsers);
        var groups := s.groups - Named(req.dropGroups);
        Done(s.(title := req.title.value, payload := req.payload.value, version := req.version,
                rows := rows.value, directs := directs, groups := groups,
                shared := directs != map[] || groups != map[]))
  }

  // ---- Creation -----------------------------------------------------------------------------

  /** A refused creation may leave the secret behind: markers are written after it, one by one. */
  datatype Created = Created(secret: Option<Secret>, refusal: Option<Refusal>)

  function CreateVersion(v: nat): nat { if v == 0 then 1 else v }

  function CreatePuts(envs: seq<EnvelopeIn>, version: nat): (puts: seq<Put>)
    requires AllBoxed(envs)
    ensures |puts| == |envs|
    ensures forall i :: 0 <= i < |envs| ==>
              puts[i] == Put(RowKey(envs[i].user, if envs[i].version == 0 then version else envs[i].version), envs[i].box.value)
  {
    seq(|envs|, i requires 0 <= i < |envs| =>
          Put(RowKey(envs[i].user, if envs[i].version == 0 then version else envs[i].version), envs[i].box.value))
  }

  function ShareTargets(me: UserId, req: CreateReq): (set<UserId>, set<GroupId>) {
    (Named(req.shareUsers) - {me}, Named(req.shareGroups))
  }

  /** The user ids before the first one that cannot receive shares, and whether there is such a one. */
  function UsersBeforeFailure(dir: Directory, me: UserId, ids: seq<string>): (set<UserId>, bool) {
    if ids == [] then ({}, false)
    else
      var (done, failed) := UsersBeforeFailure(dir, me, ids[..|ids| - 1]);
      var u := Trim(ids[|ids| - 1]);
      if failed then (done, true)
      else if u == "" || u == me then (done, false)
      else if !dir.Shareable(u) then (done, true)
      else (done + {u}, false)
  }

  function Marks(ids: set<string>, cap: Cap): map<string, Cap> { map id | id in ids :: cap }

  ghost function CreateStep(dir: Directory, me: UserId, req: CreateReq): Created {
    var version := CreateVersion(req.version);
    var (users, groups) := ShareTargets(me, req);
    var none := users == {} && groups == {};
    if req.title.None? || req.payload.None? then Created(None, Some(InvalidCiphertext))
    else if req.envelopes == [] then Created(None, Some(EnvelopesRequired))
    else if Trim(req.visibility) == "shared" && none then Created(None, Some(SharesRequired))
    else if !AllBoxed(req.envelopes) then Created(None, Some(InvalidEnvelope))
    else
      var rows := PutAll(map[], CreatePuts(req.envelopes, version));
      if rows.None? then Created(None, Some(RevokedEnvelope))
      else
        MarkCreated(dir, me, req,
                    Secret(me, !none, req.title.value, req.payload.value, version, rows.value, map[], map[]))
  }

  /** The markers of a new secret; a user who cannot receive shares stops them halfway. */
  function MarkCreated(dir: Directory, me: UserId, req: CreateReq, base: Secret): Created {
    var cap := req.capability.Normal();
    var (marked, failed) := UsersBeforeFailure(dir, me, req.shareUsers);
    if failed then Created(Some(base.(directs := Marks(marked, cap))), Some(RecipientNotOnboarded))
    else Created(Some(base.(directs := Marks(marked, cap), groups := Marks(Named(req.shareGroups), cap))), None)
  }
}
