/** Honest clients with possibly stale copies, and what every run of their requests keeps openable. */
module VaultClients {
  import opened Capability
  import opened Crypto
  import opened Prelude
  import opened VaultModel
  import opened VaultRuns

  // ---- What an honest client sends ----------------------------------------------------------

  /** The client's own envelope in its copy opens to `k`. */
  ghost predicate OpensTo(copy: Secret, me: UserId, k: Key) {
    exists v :: LiveAt(copy, me, v) && OpenEnvelope(copy.rows[RowKey(me, v)].box, me) == Some(k)
  }

  predicate SealedFor(envs: seq<EnvelopeIn>, k: Key, version: nat) {
    forall e :: e in envs ==> e == EnvelopeIn(e.user, version, Some(SealDataKey(k, e.user)))
  }

  /** The title is sent back as it was, or encrypted anew; the payload is always encrypted anew. */
  ghost predicate HonestUpdate(copy: Secret, k: Key, r: UpdateReq) {
    && DecryptPayload(copy.payload, k, copy.version).Some?
    && (exists p :: r.payload == Some(EncryptPayload(p, k, copy.version)))
    && (r.title == Some(copy.title) || exists p :: r.title == Some(EncryptPayload(p, k, copy.version)))
    && r.version == copy.version
  }

  /** Re-encryption of the copy's own contents under some new key, one version on. */
  ghost predicate HonestRotate(copy: Secret, k: Key, r: RotateReq) {
    && var title := DecryptPayload(copy.title, k, copy.version);
    && var payload := DecryptPayload(copy.payload, k, copy.version);
    && title.Some? && payload.Some?
    && r.version == copy.version + 1
    && exists newKey: Key ::
         && r.title == Some(EncryptPayload(title.value, newKey, r.version))
         && r.payload == Some(EncryptPayload(payload.value, newKey, r.version))
         && SealedFor(r.envelopes, newKey, r.version)
  }

  /** The request an honest client builds from its copy once its envelope opened to `k`. */
  ghost predicate BuiltWith(copy: Secret, k: Key, request: Request) {
    match request
    case DoShare(r) => SealedFor(r.envelopes, k, copy.version)
    case DoShareGroup(r) => SealedFor(r.envelopes, k, copy.version)
    case DoUpdate(r) => HonestUpdate(copy, k, r)
    case DoRotate(r) => HonestRotate(copy, k, r)
  }

  ghost predicate Honest(copy: Secret, me: UserId, request: Request) {
    exists k :: OpensTo(copy, me, k) && BuiltWith(copy, k, request)
  }

  /** Every request of the run is built by an honest client from the state after `copies[i]` <= i steps. */
  ghost predicate HonestRun(s0: Secret, evs: seq<Event>, copies: seq<nat>)
    requires |copies| == |evs|
  {
    evs == [] ||
      var n := |evs| - 1;
      && HonestRun(s0, evs[..n], copies[..n])
      && copies[n] <= n
      && Honest(Run(s0, evs[..copies[n]]), evs[n].me, evs[n].request)
  }

  ghost predicate CreatedWith(me: UserId, r: CreateReq, k: Key) {
    var version := CreateVersion(r.version);
    && (exists p :: r.title == Some(EncryptPayload(p, k, version)))
    && (exists p :: r.payload == Some(EncryptPayload(p, k, version)))
    && (forall e :: e in r.envelopes ==>
          (e.version == 0 || e.version == version) && e.box == Some(SealDataKey(k, e.user)))
    && me in Recipients(r.envelopes)
  }

  ghost predicate HonestCreate(me: UserId, r: CreateReq) { exists k :: CreatedWith(me, r, k) }

  // ---- Openability --------------------------------------------------------------------------

  /** Live rows are at this version and hold this key for their user. */
  ghost predicate Hold(rows: Rows, version: nat, k: Key) {
    forall key :: key in rows && !rows[key].revoked ==> key.version == version && rows[key].box == BoxTo(key.user, k)
  }

  /** One data key decrypts title and payload at the stored version, every live envelope holds it for
      its recipient, and the owner has one. */
  ghost predicate Openable(s: Secret) {
    && Aligned(s) && s.version >= 1
    && s.title.Sealed? && s.payload.Sealed?
    && s.title.key == s.payload.key
    && s.title.version == s.payload.version == s.version
    && Hold(s.rows, s.version, s.payload.key)
    && LiveAt(s, s.owner, s.version)
  }

  /** What that means for whoever holds a live envelope. */
  lemma OpenableMeans(s: Secret, u: UserId, v: nat)
    requires Openable(s) && LiveAt(s, u, v)
    ensures v == s.version
    ensures var k := OpenEnvelope(s.rows[RowKey(u, v)].box, u);
            && k == Some(s.payload.key)
            && DecryptPayload(s.title, k.value, s.version).Some?
            && DecryptPayload(s.payload, k.value, s.version).Some?
  {}

  lemma PutsHold(rows: Rows, envs: seq<EnvelopeIn>, puts: seq<Put>, version: nat, k: Key)
    requires Hold(rows, version, k) && |puts| == |envs| && PutAll(rows, puts).Some?
    requires forall i :: 0 <= i < |envs| ==> puts[i] == Put(RowKey(envs[i].user, version), BoxTo(envs[i].user, k))
    ensures var m := PutAll(rows, puts).value;
            && Hold(m, version, k)
            && (forall u :: u in Recipients(envs) ==> RowKey(u, version) in m && !m[RowKey(u, version)].revoked)
            && (forall key :: key in rows && !rows[key].revoked ==> key in m && !m[key].revoked)
  {
    var m := PutAll(rows, puts).value;
    PutAllWrites(rows, puts);
    forall u | u in Recipients(envs) ensures RowKey(u, version) in m && !m[RowKey(u, version)].revoked {
      var e :| e in envs && e.user == u;
      var i :| 0 <= i < |envs| && envs[i] == e;
      assert puts[i].key == RowKey(u, version);
    }
  }

  /** The later state may differ from the earlier one only as honest clients let it: while the version
      stands, so does the data key. */
  ghost predicate Follows(earlier: Secret, later: Secret) {
    && Openable(earlier) && Openable(later) && earlier.version <= later.version
    && (earlier.version == later.version ==> earlier.payload.key == later.payload.key)
  }

  lemma HonestShared(s: Secret, s': Secret, copy: Secret, k: Key, envs: seq<EnvelopeIn>)
    requires Follows(copy, s) && k == copy.payload.key && SealedFor(envs, k, copy.version)
    requires forall e :: e in envs ==> ShareVersion(e.version) == s.version
    requires AllBoxed(envs) && PutAll(s.rows, PutsAt(envs, s.version)) == Some(s'.rows)
    requires s' == s.(rows := s'.rows, directs := s'.directs, groups := s'.groups, shared := s'.shared) && Aligned(s')
    ensures Follows(s, s')
  {
    forall i | 0 <= i < |envs| ensures copy.version == s.version && envs[i].box == Some(BoxTo(envs[i].user, s.payload.key)) {
      assert envs[i] in envs;
    }
    PutsHold(s.rows, envs, PutsAt(envs, s.version), s.version, s.payload.key);
  }

  lemma HonestRotated(s: Secret, s': Secret, r: RotateReq, newKey: Key)
    requires Openable(s) && Aligned(s') && AllBoxed(r.envelopes) && s'.version == r.version > s.version
    requires s'.title.Sealed? && s'.payload.Sealed? && s'.title.key == s'.payload.key == newKey
    requires s'.title.version == s'.payload.version == r.version
    requires s'.owner == s.owner && s.owner in Recipients(r.envelopes)
    requires PutAll(Revoke(s.rows, s.version), PutsAt(r.envelopes, r.version)) == Some(s'.rows)
    requires SealedFor(r.envelopes, newKey, r.version)
    ensures Follows(s, s')
  {
    var before := Revoke(s.rows, s.version);
    assert Hold(before, r.version, newKey);
    forall i | 0 <= i < |r.envelopes| ensures r.envelopes[i].box == Some(BoxTo(r.envelopes[i].user, newKey)) {
      assert r.envelopes[i] in r.envelopes;
    }
    PutsHold(before, r.envelopes, PutsAt(r.envelopes, r.version), r.version, newKey);
  }

  /** An accepted request built from a copy that the present state follows keeps it so. */
  lemma HonestStep(s: Secret, ev: Event, copy: Secret)
    requires Follows(copy, s) && Honest(copy, ev.me, ev.request) && Accepted(s, ev)
    ensures Follows(s, After(s, ev))
  {
    StepVersions(s, ev);
    StepRows(s, ev);
    var k :| OpensTo(copy, ev.me, k) && BuiltWith(copy, k, ev.request);
    assert k == copy.payload.key;
    match ev.request
    case DoShare(r) => HonestShareStep(s, ev, copy, k, r);
    case DoShareGroup(r) => HonestShareGroupStep(s, ev, copy, k, r);
    case DoUpdate(r) =>
    case DoRotate(r) => HonestRotateStep(s, ev, copy, k, r);
  }

  lemma HonestShareStep(s: Secret, ev: Event, copy: Secret, k: Key, r: ShareReq)
    requires Follows(copy, s) && k == copy.payload.key && ev.request == DoShare(r) && SealedFor(r.envelopes, k, copy.version)
    requires ShareStep(ev.dir, s, ev.me, r).Done? && Aligned(After(s, ev)) && Carries(ev.request, s.version)
    ensures Follows(s, After(s, ev))
  {
    NoRefusal(ev.dir, r.envelopes, s.version, None);
    HonestShared(s, ShareStep(ev.dir, s, ev.me, r).secret, copy, k, r.envelopes);
  }

  lemma HonestShareGroupStep(s: Secret, ev: Event, copy: Secret, k: Key, r: ShareGroupReq)
    requires Follows(copy, s) && k == copy.payload.key && ev.request == DoShareGroup(r) && SealedFor(r.envelopes, k, copy.version)
    requires ShareGroupStep(ev.dir, s, ev.me, r).Done? && Aligned(After(s, ev)) && Carries(ev.request, s.version)
    ensures Follows(s, After(s, ev))
  {
    NoRefusal(ev.dir, r.envelopes, s.version, Some(r.group));
    HonestShared(s, ShareGroupStep(ev.dir, s, ev.me, r).secret, copy, k, r.envelopes);
  }

  lemma HonestRotateStep(s: Secret, ev: Event, copy: Secret, k: Key, r: RotateReq)
    requires Follows(copy, s) && ev.request == DoRotate(r) && HonestRotate(copy, k, r)
    requires RotateStep(ev.dir, s, ev.me, r).Done? && Aligned(After(s, ev))
    ensures Follows(s, After(s, ev))
  {
    var s' := RotateStep(ev.dir, s, ev.me, r).secret;
    HonestRotated(s, s', r, s'.payload.key);
  }

  /** The last step of a run, built from a copy that the state before it follows. */
  lemma HonestLastStep(s0: Secret, evs: seq<Event>, copy: Secret)
    requires evs != []
    requires Follows(copy, Run(s0, evs[..|evs| - 1])) && Honest(copy, evs[|evs| - 1].me, evs[|evs| - 1].request)
    ensures Follows(Run(s0, evs[..|evs| - 1]), Run(s0, evs))
  {
    if Accepted(Run(s0, evs[..|evs| - 1]), evs[|evs| - 1]) {
      HonestStep(Run(s0, evs[..|evs| - 1]), evs[|evs| - 1], copy);
    }
  }

  lemma FollowsChain(a: Secret, b: Secret, c: Secret)
    requires Follows(a, b) && Follows(b, c)
    ensures Follows(a, c)
  {}

  /** Over every run of honest, possibly stale clients the secret is openable after every step, and two
      states with the same version share their data key. */
  lemma {:induction false} OpenableThroughout(s0: Secret, evs: seq<Event>, copies: seq<nat>, j: nat)
    requires |copies| == |evs| && Openable(s0) && HonestRun(s0, evs, copies) && j <= |evs|
    ensures Follows(Run(s0, evs[..j]), Run(s0, evs))
    decreases |evs|
  {
    if evs == [] {
      assert evs[..j] == [];
    } else {
      var n := |evs| - 1;
      var init := evs[..n];
      assert init[..copies[n]] == evs[..copies[n]];
      OpenableThroughout(s0, init, copies[..n], copies[n]);
      HonestLastStep(s0, evs, Run(s0, evs[..copies[n]]));
      if j == |evs| {
        assert evs[..j] == evs;
      } else {
        assert init[..j] == evs[..j];
        OpenableThroughout(s0, init, copies[..n], j);
        FollowsChain(Run(s0, evs[..j]), Run(s0, init), Run(s0, evs));
      }
    }
  }

  /** An honest creation that leaves a secret behind leaves an openable one, owned by its creator. */
  lemma CreateOpenable(dir: Directory, me: UserId, r: CreateReq)
    requires HonestCreate(me, r) && CreateStep(dir, me, r).secret.Some?
    ensures Openable(CreateStep(dir, me, r).secret.value) && CreateStep(dir, me, r).secret.value.owner == me
  {
    var k :| CreatedWith(me, r, k);
    var version := CreateVersion(r.version);
    CreatedRows(r.envelopes, version, k);
    var s := CreateStep(dir, me, r).secret.value;
    assert PutAll(map[], CreatePuts(r.envelopes, version)) == Some(s.rows);
  }

  lemma CreatedRows(envs: seq<EnvelopeIn>, version: nat, k: Key)
    requires AllBoxed(envs) && PutAll(map[], CreatePuts(envs, version)).Some?
    requires forall e :: e in envs ==> (e.version == 0 || e.version == version) && e.box == Some(SealDataKey(k, e.user))
    ensures var m := PutAll(map[], CreatePuts(envs, version)).value;
            && Hold(m, version, k) && (forall key :: key in m ==> !m[key].revoked)
            && (forall u :: u in Recipients(envs) ==> RowKey(u, version) in m && !m[RowKey(u, version)].revoked)
  {
    var puts := CreatePuts(envs, version);
    forall i | 0 <= i < |envs| ensures puts[i] == Put(RowKey(envs[i].user, version), BoxTo(envs[i].user, k)) {
      assert envs[i] in envs;
    }
    PutsHold(map[], envs, puts, version, k);
    PutAllWrites(map[], puts);
  }

  /** Whatever honest clients do with whatever copies: the owner holds an envelope, and every live
      envelope opens to a key that decrypts title and payload at the stored version. */
  lemma AlwaysOpenable(s0: Secret, evs: seq<Event>, copies: seq<nat>)
    requires |copies| == |evs| && Openable(s0) && HonestRun(s0, evs, copies)
    ensures var s := Run(s0, evs);
            && s.owner == s0.owner && HasEnvelope(s, s0.owner)
            && (forall u, v :: LiveAt(s, u, v) ==>
                  var k := OpenEnvelope(s.rows[RowKey(u, v)].box, u);
                  && k.Some? && DecryptPayload(s.title, k.value, s.version).Some?
                  && DecryptPayload(s.payload, k.value, s.version).Some?)
  {
    OpenableThroughout(s0, evs, copies, 0);
    RunOwner(s0, evs);
    var s := Run(s0, evs);
    forall u, v | LiveAt(s, u, v) ensures OpenEnvelope(s.rows[RowKey(u, v)].box, u) == Some(s.payload.key) {
      OpenableMeans(s, u, v);
    }
  }

  // ---- Updates that name no version ---------------------------------------------------------

  /** An accepted update leaves an openable secret openable exactly if it is sealed with the key and version in force. */
  lemma UpdateOpenableIff(dir: Directory, s: Secret, me: UserId, req: UpdateReq)
    requires Openable(s) && UpdateStep(dir, s, me, req).Done?
    ensures Openable(UpdateStep(dir, s, me, req).secret)
       <==> && DecryptPayload(req.title.value, s.payload.key, s.version).Some?
            && DecryptPayload(req.payload.value, s.payload.key, s.version).Some?
  {
    var s' := UpdateStep(dir, s, me, req).secret;
    assert s'.rows[RowKey(s.owner, s.version)].box == BoxTo(s.owner, s.payload.key);
  }

  /** The update of a client that leaves the version out. */
  function Unversioned(copy: Secret, title: Plain, payload: Plain): UpdateReq
    requires copy.payload.Sealed?
  {
    UpdateReq(Some(EncryptPayload(title, copy.payload.key, copy.version)),
              Some(EncryptPayload(payload, copy.payload.key, copy.version)), 0)
  }

  /** Built by the owner from an older copy it is always accepted, and then nobody's envelope opens the payload. */
  lemma StaleUpdateLocksOut(dir: Directory, copy: Secret, s: Secret, title: Plain, payload: Plain)
    requires Openable(copy) && Openable(s) && copy.version < s.version
    ensures var req := Unversioned(copy, title, payload);
            && BuiltFor(DoUpdate(req), copy.version) && UpdateStep(dir, s, s.owner, req).Done?
            && var s' := UpdateStep(dir, s, s.owner, req).secret;
            && !Openable(s')
            && forall u, v :: LiveAt(s', u, v) ==>
                 var k := OpenEnvelope(s'.rows[RowKey(u, v)].box, u);
                 k.Some? ==> DecryptPayload(s'.payload, k.value, s'.version).None?
  {
    assert LiveAt(s, s.owner, s.version);
  }

  /** The owner's rotation of an openable secret, for nobody else. */
  ghost function OwnRotation(s: Secret, dk: Key): RotateReq
    requires Openable(s)
  {
    var v := s.version + 1;
    RotateReq(Some(EncryptPayload(s.title.plain, dk, v)), Some(EncryptPayload(s.payload.plain, dk, v)), v,
              [EnvelopeIn(s.owner, v, Some(SealDataKey(dk, s.owner)))], [], [])
  }

  lemma OwnRotationAccepted(dir: Directory, s: Secret, dk: Key)
    requires Openable(s)
    ensures Honest(s, s.owner, DoRotate(OwnRotation(s, dk))) && RotateStep(dir, s, s.owner, OwnRotation(s, dk)).Done?
    ensures Openable(RotateStep(dir, s, s.owner, OwnRotation(s, dk)).secret)
  {
    var req := OwnRotation(s, dk);
    assert LiveAt(s, s.owner, s.version) && OpensTo(s, s.owner, s.payload.key);
    assert SealedFor(req.envelopes, dk, req.version);
    assert HonestRotate(s, s.payload.key, req);
    assert BuiltWith(s, s.payload.key, DoRotate(req));
    assert req.envelopes[0] in req.envelopes;
    PutAllWrites(Revoke(s.rows, s.version), PutsAt(req.envelopes, req.version));
    HonestStep(s, Event(dir, s.owner, DoRotate(req)), s);
  }

  /** A secret of al's, a rotation, and an update built before it that names no version: accepted, and the
      secret no longer opens. */
  lemma StaleUpdateInstance()
    ensures exists s0: Secret, rotation: Event, update: Event ::
              && Openable(s0) && rotation.request.DoRotate? && Accepted(s0, rotation) && Openable(After(s0, rotation))
              && update.request.DoUpdate? && BuiltFor(update.request, s0.version)
              && Accepted(After(s0, rotation), update) && !Openable(After(After(s0, rotation), update))
  {
    var dir := Directory(map[], map[]);
    var s0 := Secret("al", false, Sealed(7, 1, 0), Sealed(7, 1, 1), 1, map[RowKey("al", 1) := Row(BoxTo("al", 7), false)],
                     map[], map[]);
    assert LiveAt(s0, "al", 1);
    StaleUpdateAfterRotation(dir, s0, 8);
  }

  lemma StaleUpdateAfterRotation(dir: Directory, s0: Secret, dk: Key)
    requires Openable(s0)
    ensures var rotation := Event(dir, s0.owner, DoRotate(OwnRotation(s0, dk)));
            var update := Event(dir, s0.owner, DoUpdate(Unversioned(s0, 0, 1)));
            && Accepted(s0, rotation) && Openable(After(s0, rotation)) && BuiltFor(update.request, s0.version)
            && Accepted(After(s0, rotation), update) && !Openable(After(After(s0, rotation), update))
  {
    OwnRotationAccepted(dir, s0, dk);
    var s := RotateStep(dir, s0, s0.owner, OwnRotation(s0, dk)).secret;
    StaleUpdateLocksOut(dir, s0, s, 0, 1);
  }
}
