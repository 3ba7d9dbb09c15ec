/** What every run of handlers keeps, whatever the requests: versions, recipients and visibility. */
module VaultRuns {
  import opened Capability
  import opened Crypto
  import opened Prelude
  import opened VaultModel

  datatype Request =
    | DoShare(share: ShareReq) | DoShareGroup(group: ShareGroupReq) | DoUpdate(update: UpdateReq) | DoRotate(rotate: RotateReq)

  /** One request, with the caller and the directory it met; the directory may differ every time. */
  datatype Event = Event(dir: Directory, me: UserId, request: Request)

  ghost function Step(s: Secret, ev: Event): Outcome {
    match ev.request
    case DoShare(r) => ShareStep(ev.dir, s, ev.me, r)
    case DoShareGroup(r) => ShareGroupStep(ev.dir, s, ev.me, r)
    case DoUpdate(r) => UpdateStep(ev.dir, s, ev.me, r)
    case DoRotate(r) => RotateStep(ev.dir, s, ev.me, r)
  }

  ghost predicate Accepted(s: Secret, ev: Event) { Step(s, ev).Done? }

  ghost function After(s: Secret, ev: Event): Secret {
    if Accepted(s, ev) then Step(s, ev).secret else s
  }

  ghost function Run(s: Secret, evs: seq<Event>): Secret {
    if evs == [] then s else After(Run(s, evs[..|evs| - 1]), evs[|evs| - 1])
  }

  // ---- Rows ---------------------------------------------------------------------------------

  ghost predicate WrittenBy(puts: seq<Put>, k: RowKey, box: Box) { exists i :: 0 <= i < |puts| && puts[i] == Put(k, box) }

  ghost predicate Writes(puts: seq<Put>, k: RowKey) { exists i :: 0 <= i < |puts| && puts[i].key == k }

  ghost predicate NoneRevoked(rows: Rows, puts: seq<Put>) {
    forall i :: 0 <= i < |puts| ==> !(puts[i].key in rows && rows[puts[i].key].revoked)
  }

  /** Writing succeeds exactly when no target row is revoked; then every written row is live and comes
      from the list, and every other row is as before. */
  lemma {:induction false} PutAllWrites(rows: Rows, puts: seq<Put>)
    ensures PutAll(rows, puts).Some? <==> NoneRevoked(rows, puts)
    ensures PutAll(rows, puts).Some? ==>
              var m := PutAll(rows, puts).value;
              && (forall k :: k in m <==> k in rows || Writes(puts, k))
              && (forall k :: k in m && Writes(puts, k) ==> !m[k].revoked && WrittenBy(puts, k, m[k].box))
              && (forall k :: k in rows && !Writes(puts, k) ==> m[k] == rows[k])
  {
    if puts != [] {
      var init, last := puts[..|puts| - 1], puts[|puts| - 1];
      PutAllWrites(rows, init);
      assert forall k :: Writes(puts, k) <==> Writes(init, k) || k == last.key;
      if NoneRevoked(rows, init) {
        var m := PutAll(rows, init).value;
        assert last.key in m && m[last.key].revoked <==> last.key in rows && rows[last.key].revoked;
        assert forall k, b :: WrittenBy(init, k, b) ==> WrittenBy(puts, k, b);
        assert WrittenBy(puts, last.key, last.box);
      }
    }
  }

  // ---- Versions -----------------------------------------------------------------------------

  /** No row is ahead of the secret, and live rows carry exactly its version. */
  ghost predicate Aligned(s: Secret) {
    forall k :: k in s.rows ==> k.version <= s.version && (!s.rows[k].revoked ==> k.version == s.version)
  }

  /** Every version a share or update names is this one, if it names any; a rotation names a higher one. */
  ghost predicate Carries(request: Request, version: nat) {
    match request
    case DoShare(r) => forall e :: e in r.envelopes ==> ShareVersion(e.version) == version
    case DoShareGroup(r) => forall e :: e in r.envelopes ==> ShareVersion(e.version) == version
    case DoUpdate(r) => r.version == 0 || r.version == version
    case DoRotate(r) => r.version > version
  }

  lemma ShareKeepsAligned(s: Secret, s': Secret, puts: seq<Put>)
    requires Aligned(s) && s'.version == s.version
    requires PutAll(s.rows, puts) == Some(s'.rows)
    requires forall i :: 0 <= i < |puts| ==> puts[i].key.version == s.version
    ensures Aligned(s')
  {
    PutAllWrites(s.rows, puts);
  }

  lemma RotationRows(s: Secret, s': Secret, req: RotateReq)
    requires Aligned(s) && AllBoxed(req.envelopes) && s'.version == req.version > s.version
    requires PutAll(Revoke(s.rows, s.version), PutsAt(req.envelopes, req.version)) == Some(s'.rows)
    ensures Aligned(s')
    ensures forall u :: HasEnvelope(s', u) <==> u in Recipients(req.envelopes)
  {
    var puts, before := PutsAt(req.envelopes, req.version), Revoke(s.rows, s.version);
    PutAllWrites(before, puts);
    assert forall k :: k in before ==> before[k].revoked;
    forall u, v | LiveAt(s', u, v) ensures u in Recipients(req.envelopes) {
      var i :| 0 <= i < |puts| && puts[i].key == RowKey(u, v);
      assert req.envelopes[i] in req.envelopes;
    }
    forall u | u in Recipients(req.envelopes) ensures HasEnvelope(s', u) {
      var e :| e in req.envelopes && e.user == u;
      var i :| 0 <= i < |req.envelopes| && req.envelopes[i] == e;
      assert puts[i].key == RowKey(u, req.version);
      assert LiveAt(s', u, req.version);
    }
  }

  /** One accepted step, whatever the state and the request: it carries the stored version, or raises it if
      it is a rotation, and the owner stays. */
  lemma StepVersions(s: Secret, ev: Event)
    requires Accepted(s, ev)
    ensures var s' := After(s, ev);
            && s'.owner == s.owner && Carries(ev.request, s.version)
            && s'.version == if ev.request.DoRotate? then ev.request.rotate.version else s.version
  {
    match ev.request
    case DoShare(r) => NoRefusal(ev.dir, r.envelopes, s.version, None);
    case DoShareGroup(r) => NoRefusal(ev.dir, r.envelopes, s.version, Some(r.group));
    case DoUpdate(r) =>
    case DoRotate(r) =>
  }

  /** From aligned rows a step keeps them aligned, and after a rotation its recipients are the holders. */
  lemma StepRows(s: Secret, ev: Event)
    requires Aligned(s) && Accepted(s, ev)
    ensures var s' := After(s, ev);
            && Aligned(s')
            && (ev.request.DoRotate? ==> forall u :: HasEnvelope(s', u) <==> u in Recipients(ev.request.rotate.envelopes))
  {
    var s' := After(s, ev);
    match ev.request
    case DoShare(r) =>
      NoRefusal(ev.dir, r.envelopes, s.version, None);
      ShareKeepsAligned(s, s', PutsAt(r.envelopes, s.version));
    case DoShareGroup(r) =>
      NoRefusal(ev.dir, r.envelopes, s.version, Some(r.group));
      ShareKeepsAligned(s, s', PutsAt(r.envelopes, s.version));
    case DoUpdate(r) =>
    case DoRotate(r) =>
      RotationRows(s, s', r);
  }

  lemma {:induction false} RunAligned(s: Secret, evs: seq<Event>)
    requires Aligned(s)
    ensures Aligned(Run(s, evs))
  {
    if evs != [] {
      var before := Run(s, evs[..|evs| - 1]);
      RunAligned(s, evs[..|evs| - 1]);
      if Accepted(before, evs[|evs| - 1]) { StepRows(before, evs[|evs| - 1]); }
    }
  }

  lemma {:induction false} RunOwner(s: Secret, evs: seq<Event>)
    ensures Run(s, evs).owner == s.owner
  {
    if evs != [] {
      var before := Run(s, evs[..|evs| - 1]);
      RunOwner(s, evs[..|evs| - 1]);
      if Accepted(before, evs[|evs| - 1]) { StepVersions(before, evs[|evs| - 1]); }
    }
  }

  /** Versions never fall. */
  lemma {:induction false} RunMonotone(s: Secret, evs: seq<Event>, i: nat)
    requires i <= |evs|
    ensures Run(s, evs[..i]).version <= Run(s, evs).version
  {
    if i == |evs| {
      assert evs[..i] == evs;
    } else {
      var init := evs[..|evs| - 1];
      assert init[..i] == evs[..i];
      RunMonotone(s, init, i);
      if Accepted(Run(s, init), evs[|evs| - 1]) { StepVersions(Run(s, init), evs[|evs| - 1]); }
    }
  }

  /** An accepted rotation is above everything before it and not above anything after it. */
  lemma RotationRaises(s: Secret, evs: seq<Event>, i: nat)
    requires i < |evs|
    requires evs[i].request.DoRotate? && Accepted(Run(s, evs[..i]), evs[i])
    ensures Run(s, evs[..i]).version < evs[i].request.rotate.version <= Run(s, evs).version
  {
    StepVersions(Run(s, evs[..i]), evs[i]);
    Snoc(evs, i);
    RunMonotone(s, evs, i + 1);
  }

  /** No two accepted rotations of a run share a version: later ones are strictly higher. */
  lemma RotationVersionsDiffer(s: Secret, evs: seq<Event>, i: nat, j: nat)
    requires i < j < |evs|
    requires evs[i].request.DoRotate? && Accepted(Run(s, evs[..i]), evs[i])
    requires evs[j].request.DoRotate? && Accepted(Run(s, evs[..j]), evs[j])
    ensures evs[i].request.rotate.version < evs[j].request.rotate.version
  {
    assert evs[..j][..i] == evs[..i];
    RotationRaises(s, evs[..j], i);
    RotationRaises(s, evs, j);
  }

  /** Every version the request names is that of the copy it was built from; a rotation goes one beyond. */
  ghost predicate BuiltFor(request: Request, version: nat) {
    match request
    case DoShare(r) => forall e :: e in r.envelopes ==> ShareVersion(e.version) == version
    case DoShareGroup(r) => forall e :: e in r.envelopes ==> ShareVersion(e.version) == version
    case DoUpdate(r) => r.version == 0 || r.version == version
    case DoRotate(r) => r.version == version + 1
  }

  /** An update that leaves the version out, or a share without envelopes. */
  predicate NamesNoVersion(request: Request) {
    match request
    case DoShare(r) => r.envelopes == []
    case DoShareGroup(r) => r.envelopes == []
    case DoUpdate(r) => r.version == 0
    case DoRotate(r) => false
  }

  /** What a handler asks of the caller besides versions and envelopes. */
  ghost predicate Permitted(dir: Directory, s: Secret, me: UserId, request: Request) {
    && HasEnvelope(s, me)
    && match request
       case DoShare(r) => RequireCap(dir, s, me, Share) && MayGrant(dir, s, me, r.capability.Normal())
       case DoShareGroup(r) =>
         && r.group != "" && (r.group in s.groups || RequireCap(dir, s, me, Share))
         && ((r.group in s.groups && r.capability == Empty) || MayGrant(dir, s, me, GroupShareCap(s, r)))
       case DoUpdate(r) => RequireCap(dir, s, me, Write) && r.title.Some? && r.payload.Some?
       case DoRotate(r) => RequireCap(dir, s, me, Admin)
  }

  /** A client whose copy predates an accepted rotation is refused, unless its request names no version. Such
      a request is treated like one from a copy of the moment. */
  lemma StaleCopyAcceptedIff(s: Secret, evs: seq<Event>, copied: nat, rotated: nat, ev: Event)
    requires copied <= rotated < |evs|
    requires evs[rotated].request.DoRotate? && Accepted(Run(s, evs[..rotated]), evs[rotated])
    requires BuiltFor(ev.request, Run(s, evs[..copied]).version)
    ensures Accepted(Run(s, evs), ev) <==> NamesNoVersion(ev.request) && Permitted(ev.dir, Run(s, evs), ev.me, ev.request)
  {
    assert evs[..rotated][..copied] == evs[..copied];
    RunMonotone(s, evs[..rotated], copied);
    RotationRaises(s, evs, rotated);
    OutdatedAcceptedIff(Run(s, evs), Run(s, evs[..copied]).version, ev);
  }

  lemma OutdatedAcceptedIff(s: Secret, version: nat, ev: Event)
    requires version < s.version && BuiltFor(ev.request, version)
    ensures Accepted(s, ev) <==> NamesNoVersion(ev.request) && Permitted(ev.dir, s, ev.me, ev.request)
  {
    if Accepted(s, ev) {
      StepVersions(s, ev);
      match ev.request
      case DoShare(r) => assert forall e :: e !in r.envelopes;
      case DoShareGroup(r) => assert forall e :: e !in r.envelopes;
      case DoUpdate(r) =>
      case DoRotate(r) => assert false;
    }
  }

  // ---- Recipients ---------------------------------------------------------------------------

  ghost function NamedRecipients(request: Request): set<UserId> {
    match request
    case DoShare(r) => Recipients(r.envelopes)
    case DoShareGroup(r) => Recipients(r.envelopes)
    case DoUpdate(r) => {}
    case DoRotate(r) => Recipients(r.envelopes)
  }

  /** A step gives an envelope only to users it names. */
  lemma OnlyNamedGain(s: Secret, ev: Event, u: UserId)
    requires !HasEnvelope(s, u) && u !in NamedRecipients(ev.request)
    ensures !HasEnvelope(After(s, ev), u)
  {
    if Accepted(s, ev) {
      var s' := After(s, ev);
      match ev.request
      case DoShare(r) =>
        NoRefusal(ev.dir, r.envelopes, s.version, None);
        UnwrittenStaysOut(s, s', s.rows, PutsAt(r.envelopes, s.version), r.envelopes, u);
      case DoShareGroup(r) =>
        NoRefusal(ev.dir, r.envelopes, s.version, Some(r.group));
        UnwrittenStaysOut(s, s', s.rows, PutsAt(r.envelopes, s.version), r.envelopes, u);
      case DoUpdate(r) =>
        assert forall v :: LiveAt(s', u, v) ==> LiveAt(s, u, v);
      case DoRotate(r) =>
        UnwrittenStaysOut(s, s', Revoke(s.rows, s.version), PutsAt(r.envelopes, r.version), r.envelopes, u);
    }
  }

  lemma UnwrittenStaysOut(s: Secret, s': Secret, rows: Rows, puts: seq<Put>, envs: seq<EnvelopeIn>, u: UserId)
    requires !HasEnvelope(s, u) && u !in Recipients(envs) && PutAll(rows, puts) == Some(s'.rows)
    requires forall k :: k in rows && !rows[k].revoked ==> k in s.rows && !s.rows[k].revoked
    requires |puts| == |envs| && forall i :: 0 <= i < |envs| ==> puts[i].key.user == envs[i].user
    ensures !HasEnvelope(s', u)
  {
    PutAllWrites(rows, puts);
    forall v ensures !LiveAt(s', u, v) {
      var k := RowKey(u, v);
      forall i | 0 <= i < |puts| ensures puts[i].key != k { assert envs[i] in envs; }
      assert !LiveAt(s, u, v);
    }
  }

  /** Right after an accepted rotation exactly its recipients hold envelopes, and whoever it left out
      stays out until a later accepted step names them. */
  lemma {:induction false} DroppedStaysOut(s: Secret, ev: Event, later: seq<Event>, u: UserId)
    requires Aligned(s) && ev.request.DoRotate? && Accepted(s, ev)
    requires u !in Recipients(ev.request.rotate.envelopes)
    requires forall i :: 0 <= i < |later| && Accepted(Run(After(s, ev), later[..i]), later[i])
               ==> u !in NamedRecipients(later[i].request)
    ensures !HasEnvelope(Run(After(s, ev), later), u)
  {
    var s' := After(s, ev);
    StepRows(s, ev);
    if later != [] {
      var init := later[..|later| - 1];
      assert forall i :: 0 <= i < |init| ==> init[..i] == later[..i] && init[i] == later[i];
      DroppedStaysOut(s, ev, init, u);
      if Accepted(Run(s', init), later[|later| - 1]) {
        OnlyNamedGain(Run(s', init), later[|later| - 1], u);
      }
    }
  }

  // ---- Revoked rows -------------------------------------------------------------------------

  /** No envelope of the current version has been revoked. */
  ghost predicate CurrentIntact(s: Secret) { forall k :: k in s.rows && s.rows[k].revoked ==> k.version != s.version }

  /** Writing at the current version meets no revoked row. */
  lemma IntactPuts(s: Secret, envs: seq<EnvelopeIn>)
    requires CurrentIntact(s) && AllBoxed(envs)
    ensures var rows := PutAll(s.rows, PutsAt(envs, s.version));
            rows.Some? && forall k :: k in rows.value && rows.value[k].revoked ==> k.version != s.version
  {
    PutAllWrites(s.rows, PutsAt(envs, s.version));
  }

  lemma IntactRotation(s: Secret, envs: seq<EnvelopeIn>, version: nat)
    requires Aligned(s) && AllBoxed(envs) && version > s.version
    ensures var rows := PutAll(Revoke(s.rows, s.version), PutsAt(envs, version));
            rows.Some? && forall k :: k in rows.value && rows.value[k].revoked ==> k.version != version
  {
    PutAllWrites(Revoke(s.rows, s.version), PutsAt(envs, version));
  }

  lemma IntactStep(s: Secret, ev: Event)
    requires Aligned(s) && CurrentIntact(s)
    ensures CurrentIntact(After(s, ev))
    ensures Step(s, ev) != Refused(RevokedEnvelope)
  {
    match ev.request
    case DoShare(r) =>
      RefusalKinds(ev.dir, r.envelopes, s.version, None);
      if FirstRefusal(ev.dir, r.envelopes, s.version, None).None? {
        NoRefusal(ev.dir, r.envelopes, s.version, None);
        IntactPuts(s, r.envelopes);
      }
    case DoShareGroup(r) =>
      RefusalKinds(ev.dir, r.envelopes, s.version, Some(r.group));
      if FirstRefusal(ev.dir, r.envelopes, s.version, Some(r.group)).None? {
        NoRefusal(ev.dir, r.envelopes, s.version, Some(r.group));
        IntactPuts(s, r.envelopes);
      }
    case DoUpdate(r) =>
    case DoRotate(r) =>
      if AllBoxed(r.envelopes) && r.version > s.version { IntactRotation(s, r.envelopes, r.version); }
  }

  lemma {:induction false} RefusalKinds(dir: Directory, envs: seq<EnvelopeIn>, version: nat, group: Option<GroupId>)
    ensures FirstRefusal(dir, envs, version, group) != Some(RevokedEnvelope)
  {
    if envs != [] { RefusalKinds(dir, envs[..|envs| - 1], version, group); }
  }

  /** Over every run from aligned rows with none of the current version revoked it stays so, and no request
      is refused for a revoked envelope. */
  lemma {:induction false} NeverRefusedAsRevoked(s: Secret, evs: seq<Event>, ev: Event)
    requires Aligned(s) && CurrentIntact(s)
    ensures CurrentIntact(Run(s, evs)) && Step(Run(s, evs), ev) != Refused(RevokedEnvelope)
  {
    RunAligned(s, evs);
    if evs != [] {
      var init := evs[..|evs| - 1];
      NeverRefusedAsRevoked(s, init, ev);
      RunAligned(s, init);
      IntactStep(Run(s, init), evs[|evs| - 1]);
    }
    IntactStep(Run(s, evs), ev);
  }

  // ---- Visibility ---------------------------------------------------------------------------

  ghost predicate HasMarker(s: Secret) { s.directs != map[] || s.groups != map[] }

  /** A secret with any marker is stored as shared. */
  ghost predicate MarkersVisible(s: Secret) { HasMarker(s) ==> s.shared }

  lemma {:induction false} VisibilityOverRuns(s: Secret, evs: seq<Event>)
    requires MarkersVisible(s)
    ensures MarkersVisible(Run(s, evs))
    ensures (evs != [] && evs[|evs| - 1].request.DoRotate? && Accepted(Run(s, evs[..|evs| - 1]), evs[|evs| - 1]))
              ==> (Run(s, evs).shared <==> HasMarker(Run(s, evs)))
  {
    if evs != [] {
      VisibilityOverRuns(s, evs[..|evs| - 1]);
    }
  }

  lemma {:induction false} MarkedUsersAreTargets(dir: Directory, me: UserId, ids: seq<string>)
    ensures UsersBeforeFailure(dir, me, ids).0 <= Named(ids) - {me}
    ensures !UsersBeforeFailure(dir, me, ids).1 ==> UsersBeforeFailure(dir, me, ids).0 == Named(ids) - {me}
  {
    if ids != [] {
      var init, last := ids[..|ids| - 1], ids[|ids| - 1];
      MarkedUsersAreTargets(dir, me, init);
      assert forall id :: id in ids <==> id in init || id == last;
      assert Named(ids) == Named(init) + (if Trim(last) == "" then {} else {Trim(last)});
    }
  }

  /** A creation that leaves a secret behind, even a refused one, leaves it owned by the caller with its
      markers visible; a complete one marks exactly the named users and groups. */
  lemma CreateMarks(dir: Directory, me: UserId, req: CreateReq)
    requires CreateStep(dir, me, req).secret.Some?
    ensures var c := CreateStep(dir, me, req);
            var s := c.secret.value;
            && s.owner == me && MarkersVisible(s)
            && (c.refusal.None? ==>
                  && s.directs.Keys == Named(req.shareUsers) - {me} && s.groups.Keys == Named(req.shareGroups)
                  && (s.shared <==> HasMarker(s)))
  {
    MarkedUsersAreTargets(dir, me, req.shareUsers);
  }

  lemma WrittenByCreation(envs: seq<EnvelopeIn>, version: nat, k: RowKey)
    requires AllBoxed(envs)
    ensures Writes(CreatePuts(envs, version), k)
       <==> exists e :: e in envs && k == RowKey(e.user, if e.version == 0 then version else e.version)
  {
    var puts := CreatePuts(envs, version);
    if Writes(puts, k) {
      var i :| 0 <= i < |puts| && puts[i].key == k;
      assert envs[i] in envs;
    }
    if e :| e in envs && k == RowKey(e.user, if e.version == 0 then version else e.version) {
      var i :| 0 <= i < |envs| && envs[i] == e;
      assert puts[i].key == k;
    }
  }

  /** The rows of a creation: one live row for each envelope sent, and no others. */
  lemma RowsOfCreation(envs: seq<EnvelopeIn>, version: nat)
    requires AllBoxed(envs) && PutAll(map[], CreatePuts(envs, version)).Some?
    ensures var rows := PutAll(map[], CreatePuts(envs, version)).value;
            && (forall k :: k in rows ==> !rows[k].revoked)
            && (forall k :: k in rows <==> exists e :: e in envs && k == RowKey(e.user, if e.version == 0 then version else e.version))
  {
    PutAllWrites(map[], CreatePuts(envs, version));
    forall k { WrittenByCreation(envs, version, k); }
  }

  /** A creation does not check the versions of its envelopes. It starts a run whose versions line up exactly
      if each envelope carries none or the secret's, and its owner has an envelope exactly if it sent one. */
  lemma CreateAlignedIff(dir: Directory, me: UserId, req: CreateReq)
    requires CreateStep(dir, me, req).secret.Some?
    ensures var s := CreateStep(dir, me, req).secret.value;
            && (Aligned(s) <==> forall e :: e in req.envelopes ==> e.version == 0 || e.version == CreateVersion(req.version))
            && (forall u :: HasEnvelope(s, u) <==> u in Recipients(req.envelopes))
            && CurrentIntact(s)
  {
    var s := CreateStep(dir, me, req).secret.value;
    var version := CreateVersion(req.version);
    assert PutAll(map[], CreatePuts(req.envelopes, version)) == Some(s.rows);
    RowsOfCreation(req.envelopes, version);
    forall e | e in req.envelopes ensures LiveAt(s, e.user, if e.version == 0 then version else e.version) {}
    forall u, v | LiveAt(s, u, v) ensures u in Recipients(req.envelopes) {}
  }

  // ---- Refused creations --------------------------------------------------------------------

  /** The id names a share target that cannot receive shares. */
  predicate Unreachable(dir: Directory, me: UserId, id: string) {
    Trim(id) != "" && Trim(id) != me && !dir.Shareable(Trim(id))
  }

  lemma {:induction false} FailsIff(dir: Directory, me: UserId, ids: seq<string>)
    ensures UsersBeforeFailure(dir, me, ids).1 <==> exists id :: id in ids && Unreachable(dir, me, id)
  {
    if ids != [] {
      var init, last := ids[..|ids| - 1], ids[|ids| - 1];
      FailsIff(dir, me, init);
      assert ids == init + [last];
      assert UsersBeforeFailure(dir, me, ids).1 <==> UsersBeforeFailure(dir, me, init).1 || Unreachable(dir, me, last);
      if id :| id in init && Unreachable(dir, me, id) { assert id in ids; }
      if Unreachable(dir, me, last) { assert last in ids; }
    }
  }

  /** A refused creation leaves the secret stored exactly if it was well formed and one of the users named
      cannot receive shares: that check comes after the secret is written. */
  lemma RefusedCreationStoresIff(dir: Directory, me: UserId, req: CreateReq)
    ensures var c := CreateStep(dir, me, req);
            (c.refusal.Some? && c.secret.Some?)
              <==> && req.title.Some? && req.payload.Some? && req.envelopes != [] && AllBoxed(req.envelopes)
                   && exists id :: id in req.shareUsers && Unreachable(dir, me, id)
  {
    FailsIff(dir, me, req.shareUsers);
    if id :| id in req.shareUsers && Unreachable(dir, me, id) {
      assert Trim(id) in Named(req.shareUsers) - {me};
    }
    if AllBoxed(req.envelopes) {
      PutAllWrites(map[], CreatePuts(req.envelopes, CreateVersion(req.version)));
    }
  }

  /** Sharing a new secret with an unknown user is refused, and the secret is there, stored as shared. */
  lemma RefusedCreationStores()
    ensures exists dir, req, s :: CreateStep(dir, "al", req) == Created(Some(s), Some(RecipientNotOnboarded)) && s.shared
  {
    var dir := Directory(map[], map[]);
    var req := CreateReq(Some(Sealed(7, 1, 0)), Some(Sealed(7, 1, 1)), 1, [EnvelopeIn("al", 1, Some(BoxTo("al", 7)))],
                         ["bob"], [], Write, "shared");
    TrimKeeps("bob");
    assert |"bob"| != |"al"|;
    assert Unreachable(dir, "al", req.shareUsers[0]);
    assert req.shareUsers[0] in req.shareUsers;
    RefusedCreationStoresIff(dir, "al", req);
    var c := CreateStep(dir, "al", req);
    assert "bob" in Named(req.shareUsers) - {"al"};
    assert c == Created(Some(c.secret.value), Some(RecipientNotOnboarded)) && c.secret.value.shared;
  }
}
