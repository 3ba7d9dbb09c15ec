/** When each request on a secret is accepted, why it is refused, and all that an accepted one changes. */
module VaultEffects {
  import opened Capability
  import opened Crypto
  import opened Prelude
  import opened VaultModel
  import opened VaultRuns

  // ---- Rows ---------------------------------------------------------------------------------

  /** The last of the puts on this row. */
  ghost predicate LastPut(puts: seq<Put>, k: RowKey, box: Box) {
    exists i :: 0 <= i < |puts| && puts[i] == Put(k, box) && forall j :: i < j < |puts| ==> puts[j].key != k
  }

  lemma LastPutStays(puts: seq<Put>, last: Put, k: RowKey, box: Box)
    requires LastPut(puts, k, box) && last.key != k
    ensures LastPut(puts + [last], k, box)
  {
    var i :| 0 <= i < |puts| && puts[i] == Put(k, box) && forall j :: i < j < |puts| ==> puts[j].key != k;
    assert (puts + [last])[i] == Put(k, box);
  }

  lemma LastPutIsLast(puts: seq<Put>, last: Put)
    ensures LastPut(puts + [last], last.key, last.box)
  {
    assert (puts + [last])[|puts|] == Put(last.key, last.box);
  }

  lemma WritesEarlier(puts: seq<Put>, last: Put, k: RowKey)
    requires Writes(puts + [last], k) && last.key != k
    ensures Writes(puts, k)
  {
    var i :| 0 <= i < |puts| + 1 && (puts + [last])[i].key == k;
    assert puts[i].key == k;
  }

  lemma {:induction false} PutAllLast(rows: Rows, puts: seq<Put>, k: RowKey)
    requires PutAll(rows, puts).Some? && Writes(puts, k)
    ensures k in PutAll(rows, puts).value && LastPut(puts, k, PutAll(rows, puts).value[k].box)
  {
    var init, last := puts[..|puts| - 1], puts[|puts| - 1];
    assert puts == init + [last];
    if last.key == k {
      LastPutIsLast(init, last);
    } else {
      WritesEarlier(init, last, k);
      PutAllLast(rows, init, k);
      LastPutStays(init, last, k, PutAll(rows, init).value[k].box);
    }
  }

  /** The last envelope sent for the user holds this box. */
  ghost predicate LastSent(envs: seq<EnvelopeIn>, u: UserId, box: Box) {
    exists i :: 0 <= i < |envs| && envs[i].user == u && envs[i].box == Some(box) && forall j :: i < j < |envs| ==> envs[j].user != u
  }

  /** At this version everyone sent an envelope has a live row with the last box sent for them, and every other
      row is as before. */
  ghost predicate EnvelopesWritten(before: Rows, after: Rows, envs: seq<EnvelopeIn>, version: nat) {
    && (forall u :: u in Recipients(envs) ==>
          && RowKey(u, version) in after && !after[RowKey(u, version)].revoked
          && LastSent(envs, u, after[RowKey(u, version)].box))
    && (forall k: RowKey :: k.version != version || k.user !in Recipients(envs) ==> (k in after <==> k in before))
    && (forall k :: k in before && (k.version != version || k.user !in Recipients(envs)) ==> k in after && after[k] == before[k])
  }

  lemma WritesAt(envs: seq<EnvelopeIn>, version: nat, k: RowKey)
    requires AllBoxed(envs)
    ensures Writes(PutsAt(envs, version), k) <==> k.version == version && k.user in Recipients(envs)
  {
    var puts := PutsAt(envs, version);
    if Writes(puts, k) {
      var i :| 0 <= i < |puts| && puts[i].key == k;
      assert envs[i] in envs;
    }
    if k.version == version && k.user in Recipients(envs) {
      var e :| e in envs && e.user == k.user;
      var i :| 0 <= i < |envs| && envs[i] == e;
      assert puts[i].key == k;
    }
  }

  lemma PutsWrite(before: Rows, after: Rows, envs: seq<EnvelopeIn>, version: nat)
    requires AllBoxed(envs) && PutAll(before, PutsAt(envs, version)) == Some(after)
    ensures EnvelopesWritten(before, after, envs, version)
  {
    var puts := PutsAt(envs, version);
    PutAllWrites(before, puts);
    forall k ensures Writes(puts, k) <==> k.version == version && k.user in Recipients(envs) { WritesAt(envs, version, k); }
    forall u | u in Recipients(envs) ensures LastSent(envs, u, after[RowKey(u, version)].box) {
      var k := RowKey(u, version);
      PutAllLast(before, puts, k);
      var i :| 0 <= i < |puts| && puts[i] == Put(k, after[k].box) && forall j :: i < j < |puts| ==> puts[j].key != k;
      forall j | i < j < |envs| ensures envs[j].user != u { assert puts[j].key != k; }
      assert envs[i].user == u && envs[i].box == Some(after[k].box);
    }
  }

  ghost predicate RevokedAt(rows: Rows, u: UserId, version: nat) { RowKey(u, version) in rows && rows[RowKey(u, version)].revoked }

  lemma PutsAcceptedIff(rows: Rows, envs: seq<EnvelopeIn>, version: nat)
    requires AllBoxed(envs)
    ensures PutAll(rows, PutsAt(envs, version)).Some? <==> forall u :: u in Recipients(envs) ==> !RevokedAt(rows, u, version)
  {
    var puts := PutsAt(envs, version);
    PutAllWrites(rows, puts);
    if NoneRevoked(rows, puts) {
      forall u | u in Recipients(envs) ensures !RevokedAt(rows, u, version) {
        WritesAt(envs, version, RowKey(u, version));
        var i :| 0 <= i < |puts| && puts[i].key == RowKey(u, version);
      }
    }
    if forall u :: u in Recipients(envs) ==> !RevokedAt(rows, u, version) {
      forall i | 0 <= i < |puts| ensures !(puts[i].key in rows && rows[puts[i].key].revoked) {
        assert envs[i] in envs;
        assert !RevokedAt(rows, envs[i].user, version);
      }
    }
  }

  // ---- Envelopes that may be shared ---------------------------------------------------------

  predicate Admissible(dir: Directory, e: EnvelopeIn, version: nat, group: Option<GroupId>) {
    && (group.Some? ==> e.user in dir.MembersOf(group.value))
    && dir.Shareable(e.user) && e.box.Some? && ShareVersion(e.version) == version
  }

  ghost predicate AllAdmissible(dir: Directory, envs: seq<EnvelopeIn>, version: nat, group: Option<GroupId>) {
    forall e :: e in envs ==> Admissible(dir, e, version, group)
  }

  /** Why a share turns an envelope down, each reason in its turn. */
  ghost predicate EnvelopeCause(dir: Directory, e: EnvelopeIn, version: nat, group: Option<GroupId>, why: Refusal) {
    var member := group.Some? ==> e.user in dir.MembersOf(group.value);
    match why
    case NotInGroup => !member
    case RecipientNotOnboarded => member && !dir.Shareable(e.user)
    case InvalidEnvelope => member && dir.Shareable(e.user) && e.box.None?
    case VersionMismatch => member && dir.Shareable(e.user) && e.box.Some? && ShareVersion(e.version) != version
    case _ => false
  }

  /** The first envelope that is not admissible is the one turned down. */
  ghost predicate FirstBad(dir: Directory, envs: seq<EnvelopeIn>, version: nat, group: Option<GroupId>, why: Refusal) {
    exists i :: 0 <= i < |envs| && BadAt(dir, envs, version, group, why, i)
  }

  ghost predicate BadAt(dir: Directory, envs: seq<EnvelopeIn>, version: nat, group: Option<GroupId>, why: Refusal, i: nat)
    requires i < |envs|
  {
    EnvelopeCause(dir, envs[i], version, group, why) && forall j :: 0 <= j < i ==> Admissible(dir, envs[j], version, group)
  }

  lemma {:induction false} RefusalIs(dir: Directory, envs: seq<EnvelopeIn>, version: nat, group: Option<GroupId>)
    ensures var r := FirstRefusal(dir, envs, version, group);
            && (r.None? <==> AllAdmissible(dir, envs, version, group))
            && (r.Some? ==> FirstBad(dir, envs, version, group, r.value))
  {
    if envs != [] {
      var n := |envs| - 1;
      var init, last := envs[..n], envs[n];
      RefusalIs(dir, init, version, group);
      assert forall e :: e in envs <==> e in init || e == last;
      var earlier, r := FirstRefusal(dir, init, version, group), FirstRefusal(dir, envs, version, group);
      if earlier.Some? {
        var i :| 0 <= i < |init| && BadAt(dir, init, version, group, earlier.value, i);
        assert BadAt(dir, envs, version, group, r.value, i);
        assert !AllAdmissible(dir, init, version, group);
      } else if r.Some? {
        forall j | 0 <= j < n ensures Admissible(dir, envs[j], version, group) { assert init[j] in init; }
        assert BadAt(dir, envs, version, group, r.value, n);
        assert last in envs && !Admissible(dir, last, version, group);
      }
    }
  }

  // ---- Sharing ------------------------------------------------------------------------------

  /** Exactly these users get this capability, all other markers stay. */
  ghost predicate MarkersSet(before: map<string, Cap>, after: map<string, Cap>, marked: set<string>, cap: Cap) {
    && (forall u :: u in after <==> u in before || u in marked)
    && (forall u :: u in marked ==> after[u] == cap)
    && (forall u :: u in before && u !in marked ==> after[u] == before[u])
  }

  /** Markers, contents, version and owner stay. */
  ghost predicate ContentsStay(s: Secret, s': Secret) {
    s'.owner == s.owner && s'.title == s.title && s'.payload == s.payload && s'.version == s.version
  }

  /** A share is accepted exactly if the caller may give that capability and every envelope is good; then
      everyone named holds the last envelope sent for them, and everyone but the caller the capability. */
  lemma ShareEffect(dir: Directory, s: Secret, me: UserId, r: ShareReq)
    ensures ShareStep(dir, s, me, r).Done?
       <==> && HasEnvelope(s, me) && RequireCap(dir, s, me, Share) && MayGrant(dir, s, me, r.capability.Normal())
            && AllAdmissible(dir, r.envelopes, s.version, None)
            && (forall u :: u in Recipients(r.envelopes) ==> !RevokedAt(s.rows, u, s.version))
    ensures ShareStep(dir, s, me, r).Done? ==>
              var s' := ShareStep(dir, s, me, r).secret;
              && ContentsStay(s, s') && s'.shared && s'.groups == s.groups
              && EnvelopesWritten(s.rows, s'.rows, r.envelopes, s.version)
              && MarkersSet(s.directs, s'.directs, Recipients(r.envelopes) - {me}, r.capability.Normal())
  {
    RefusalIs(dir, r.envelopes, s.version, None);
    if FirstRefusal(dir, r.envelopes, s.version, None).None? {
      NoRefusal(dir, r.envelopes, s.version, None);
      PutsAcceptedIff(s.rows, r.envelopes, s.version);
      var rows := PutAll(s.rows, PutsAt(r.envelopes, s.version));
      if rows.Some? { PutsWrite(s.rows, rows.value, r.envelopes, s.version); }
    }
  }

  ghost predicate ShareCause(dir: Directory, s: Secret, me: UserId, r: ShareReq, why: Refusal) {
    if !HasEnvelope(s, me) then why == NoEnvelope
    else if !RequireCap(dir, s, me, Share) then why == CapabilityRequired
    else if !MayGrant(dir, s, me, r.capability.Normal()) then why == AboveOwn
    else if !AllAdmissible(dir, r.envelopes, s.version, None) then FirstBad(dir, r.envelopes, s.version, None, why)
    else why == RevokedEnvelope
  }

  lemma ShareRefused(dir: Directory, s: Secret, me: UserId, r: ShareReq)
    requires ShareStep(dir, s, me, r).Refused?
    ensures ShareCause(dir, s, me, r, ShareStep(dir, s, me, r).why)
  {
    RefusalIs(dir, r.envelopes, s.version, None);
  }

  /** The capability a group share writes: the one named; without one, the group's own if it has one, else write. */
  ghost predicate GroupCap(s: Secret, r: ShareGroupReq, cap: Cap) {
    && (r.capability != Empty ==> cap == r.capability)
    && (r.capability == Empty && r.group !in s.groups ==> cap == Write)
    && (r.capability == Empty && r.group in s.groups ==> cap != Empty && cap.Rank() == s.groups[r.group].Rank())
  }

  /** A group share is accepted exactly if the caller may give that capability, or only catches up, and every
      envelope is good and for a member; then everyone named holds the last envelope sent for them. */
  lemma ShareGroupEffect(dir: Directory, s: Secret, me: UserId, r: ShareGroupReq)
    ensures ShareGroupStep(dir, s, me, r).Done?
       <==> && Permitted(dir, s, me, DoShareGroup(r)) && AllAdmissible(dir, r.envelopes, s.version, Some(r.group))
            && (forall u :: u in Recipients(r.envelopes) ==> !RevokedAt(s.rows, u, s.version))
    ensures ShareGroupStep(dir, s, me, r).Done? ==>
              var s' := ShareGroupStep(dir, s, me, r).secret;
              && ContentsStay(s, s') && s'.shared && s'.directs == s.directs && r.group in s'.groups
              && EnvelopesWritten(s.rows, s'.rows, r.envelopes, s.version)
              && GroupCap(s, r, s'.groups[r.group])
              && MarkersSet(s.groups, s'.groups, {r.group}, s'.groups[r.group])
  {
    RefusalIs(dir, r.envelopes, s.version, Some(r.group));
    if FirstRefusal(dir, r.envelopes, s.version, Some(r.group)).None? {
      NoRefusal(dir, r.envelopes, s.version, Some(r.group));
      PutsAcceptedIff(s.rows, r.envelopes, s.version);
      var rows := PutAll(s.rows, PutsAt(r.envelopes, s.version));
      if rows.Some? { PutsWrite(s.rows, rows.value, r.envelopes, s.version); }
    }
  }

  /** Sharing with a group for the first time asks for the right to share, and for a rank no lower than the
      capability given: the one named, or write. */
  lemma FirstGroupShare(dir: Directory, s: Secret, me: UserId, r: ShareGroupReq)
    requires r.group !in s.groups && ShareGroupStep(dir, s, me, r).Done?
    ensures var cap := if r.capability == Empty then Write else r.capability;
            && RequireCap(dir, s, me, Share) && EffectiveCapability(dir, s, me).value.Rank() >= cap.Rank()
            && ShareGroupStep(dir, s, me, r).secret.groups == s.groups[r.group := cap]
  {}

  ghost predicate ShareGroupCause(dir: Directory, s: Secret, me: UserId, r: ShareGroupReq, why: Refusal) {
    if !HasEnvelope(s, me) then why == NoEnvelope
    else if r.group == "" then why == GroupRequired
    else if r.group !in s.groups && !RequireCap(dir, s, me, Share) then why == CapabilityRequired
    else if !Permitted(dir, s, me, DoShareGroup(r)) then why == AboveOwn
    else if !AllAdmissible(dir, r.envelopes, s.version, Some(r.group)) then
      FirstBad(dir, r.envelopes, s.version, Some(r.group), why)
    else why == RevokedEnvelope
  }

  lemma ShareGroupRefused(dir: Directory, s: Secret, me: UserId, r: ShareGroupReq)
    requires ShareGroupStep(dir, s, me, r).Refused?
    ensures ShareGroupCause(dir, s, me, r, ShareGroupStep(dir, s, me, r).why)
  {
    RefusalIs(dir, r.envelopes, s.version, Some(r.group));
  }

  // ---- Updating -----------------------------------------------------------------------------

  /** An update is accepted exactly if the caller holds an envelope and write, both parts decode and the version
      is the stored one or left out; then title and payload are the ones sent, and nothing else changes. */
  lemma UpdateEffect(dir: Directory, s: Secret, me: UserId, r: UpdateReq)
    ensures UpdateStep(dir, s, me, r).Done?
       <==> && HasEnvelope(s, me) && RequireCap(dir, s, me, Write) && (r.version == 0 || r.version == s.version)
            && r.title.Some? && r.payload.Some?
    ensures UpdateStep(dir, s, me, r).Done? ==>
              var s' := UpdateStep(dir, s, me, r).secret;
              && Some(s'.title) == r.title && Some(s'.payload) == r.payload && s'.version == s.version
              && s'.owner == s.owner && s'.shared == s.shared && s'.rows == s.rows
              && s'.directs == s.directs && s'.groups == s.groups
    ensures UpdateStep(dir, s, me, r).Refused? ==>
              UpdateStep(dir, s, me, r).why
                == if !HasEnvelope(s, me) then NoEnvelope
                   else if !RequireCap(dir, s, me, Write) then CapabilityRequired
                   else if r.version != 0 && r.version != s.version then VersionMismatch
                   else InvalidCiphertext
  {}

  // ---- Rotating -----------------------------------------------------------------------------

  /** The rows before the new envelopes: those of the old version revoked, all others as they were. */
  ghost predicate OldRevoked(before: Rows, after: Rows, version: nat) {
    && after.Keys == before.Keys
    && forall k :: k in before ==>
         after[k].box == before[k].box && (after[k].revoked <==> before[k].revoked || k.version == version)
  }

  /** The list names this id, trimmed. */
  predicate Listed(ids: seq<string>, id: string) { id != "" && exists i :: 0 <= i < |ids| && Trim(ids[i]) == id }

  ghost predicate MarkersDropped(before: map<string, Cap>, after: map<string, Cap>, ids: seq<string>) {
    && (forall u :: u in after <==> u in before && !Listed(ids, u))
    && (forall u :: u in after ==> after[u] == before[u])
  }

  lemma NamedAreListed(ids: seq<string>)
    ensures forall u :: u in Named(ids) <==> Listed(ids, u)
  {
    forall u ensures u in Named(ids) <==> Listed(ids, u) {
      if u in Named(ids) {
        var id :| id in ids && Trim(id) != "" && Trim(id) == u;
        var i :| 0 <= i < |ids| && ids[i] == id;
      }
      if Listed(ids, u) {
        var i :| 0 <= i < |ids| && Trim(ids[i]) == u;
        assert ids[i] in ids;
      }
    }
  }

  lemma NamedAreDropped(before: map<string, Cap>, ids: seq<string>)
    ensures MarkersDropped(before, before - Named(ids), ids)
  {
    NamedAreListed(ids);
  }

  ghost predicate RotationGood(s: Secret, r: RotateReq) {
    && r.envelopes != [] && r.version > s.version && r.title.Some? && r.payload.Some?
    && (forall e :: e in r.envelopes ==> e.box.Some?) && s.owner in Recipients(r.envelopes)
    && forall u :: u in Recipients(r.envelopes) ==> !RevokedAt(s.rows, u, r.version)
  }

  lemma RotateAcceptedIff(dir: Directory, s: Secret, me: UserId, r: RotateReq)
    ensures RotateStep(dir, s, me, r).Done? <==> HasEnvelope(s, me) && RequireCap(dir, s, me, Admin) && RotationGood(s, r)
  {
    assert AllBoxed(r.envelopes) <==> forall e :: e in r.envelopes ==> e.box.Some?;
    if AllBoxed(r.envelopes) && r.version > s.version {
      var before := Revoke(s.rows, s.version);
      PutsAcceptedIff(before, r.envelopes, r.version);
      assert forall u :: RevokedAt(before, u, r.version) <==> RevokedAt(s.rows, u, r.version);
    }
  }

  /** The rows after a rotation, for the old and the new version. */
  ghost predicate RowsRotated(before: Rows, after: Rows, envs: seq<EnvelopeIn>, was: nat, version: nat) {
    exists rows: Rows :: OldRevoked(before, rows, was) && EnvelopesWritten(rows, after, envs, version)
  }

  lemma RotationWrites(s: Secret, rows: Rows, r: RotateReq)
    requires AllBoxed(r.envelopes) && PutAll(Revoke(s.rows, s.version), PutsAt(r.envelopes, r.version)) == Some(rows)
    ensures RowsRotated(s.rows, rows, r.envelopes, s.version, r.version)
  {
    var before := Revoke(s.rows, s.version);
    PutsWrite(before, rows, r.envelopes, r.version);
    assert OldRevoked(s.rows, before, s.version);
  }

  /** A rotation is accepted exactly if the caller holds an envelope and admin, the version rises, everything
      decodes and the owner is among the recipients; then the contents and version are the ones sent, the old
      version's envelopes are revoked, the recipients hold the last envelope sent for them, exactly the dropped
      markers are gone, and the secret is shared exactly if a marker is left. */
  lemma RotateEffect(dir: Directory, s: Secret, me: UserId, r: RotateReq)
    ensures RotateStep(dir, s, me, r).Done? <==> HasEnvelope(s, me) && RequireCap(dir, s, me, Admin) && RotationGood(s, r)
    ensures RotateStep(dir, s, me, r).Done? ==>
              var s' := RotateStep(dir, s, me, r).secret;
              && s'.owner == s.owner && Some(s'.title) == r.title && Some(s'.payload) == r.payload && s'.version == r.version
              && RowsRotated(s.rows, s'.rows, r.envelopes, s.version, r.version)
              && MarkersDropped(s.directs, s'.directs, r.dropUsers) && MarkersDropped(s.groups, s'.groups, r.dropGroups)
              && (s'.shared <==> s'.directs.Keys != {} || s'.groups.Keys != {})
  {
    RotateAcceptedIff(dir, s, me, r);
    if RotateStep(dir, s, me, r).Done? {
      RotationWrites(s, RotateStep(dir, s, me, r).secret.rows, r);
      NamedAreDropped(s.directs, r.dropUsers);
      NamedAreDropped(s.groups, r.dropGroups);
    }
  }

  ghost predicate RotateCause(dir: Directory, s: Secret, me: UserId, r: RotateReq, why: Refusal) {
    if !HasEnvelope(s, me) then why == NoEnvelope
    else if !RequireCap(dir, s, me, Admin) then why == CapabilityRequired
    else if r.envelopes == [] then why == EnvelopesRequired
    else if r.version <= s.version then why == VersionMustIncrease
    else if r.title.None? || r.payload.None? then why == InvalidCiphertext
    else if exists e :: e in r.envelopes && e.box.None? then why == InvalidEnvelope
    else if s.owner !in Recipients(r.envelopes) then why == OwnerRequired
    else why == RevokedEnvelope
  }

  lemma RotateRefused(dir: Directory, s: Secret, me: UserId, r: RotateReq)
    requires RotateStep(dir, s, me, r).Refused?
    ensures RotateCause(dir, s, me, r, RotateStep(dir, s, me, r).why)
  {
    if e :| e in r.envelopes && e.box.None? { assert !AllBoxed(r.envelopes); }
    if !AllBoxed(r.envelopes) {
      var i :| 0 <= i < |r.envelopes| && r.envelopes[i].box.None?;
      assert r.envelopes[i] in r.envelopes;
    }
  }

  // ---- Creating -----------------------------------------------------------------------------

  /** Where a creation puts an envelope: under its own version, or the secret's if it names none. */
  function Place(e: EnvelopeIn, version: nat): RowKey { RowKey(e.user, if e.version == 0 then version else e.version) }

  ghost predicate LastPlaced(envs: seq<EnvelopeIn>, version: nat, k: RowKey, box: Box) {
    exists i :: 0 <= i < |envs| && Place(envs[i], version) == k && envs[i].box == Some(box)
      && forall j :: i < j < |envs| ==> Place(envs[j], version) != k
  }

  lemma PlacedRows(envs: seq<EnvelopeIn>, version: nat)
    requires AllBoxed(envs)
    ensures PutAll(map[], CreatePuts(envs, version)).Some?
    ensures var rows := PutAll(map[], CreatePuts(envs, version)).value;
            && (forall k :: k in rows <==> exists e :: e in envs && Place(e, version) == k)
            && (forall k :: k in rows ==> !rows[k].revoked && LastPlaced(envs, version, k, rows[k].box))
  {
    var puts := CreatePuts(envs, version);
    PutAllWrites(map[], puts);
    var rows := PutAll(map[], puts).value;
    forall k ensures Writes(puts, k) <==> exists e :: e in envs && Place(e, version) == k {
      WrittenByCreation(envs, version, k);
      if e :| e in envs && Place(e, version) == k {}
      if Writes(puts, k) {
        var i :| 0 <= i < |puts| && puts[i].key == k;
        assert envs[i] in envs && Place(envs[i], version) == k;
      }
    }
    forall k | k in rows ensures LastPlaced(envs, version, k, rows[k].box) {
      PutAllLast(map[], puts, k);
      var i :| 0 <= i < |puts| && puts[i] == Put(k, rows[k].box) && forall j :: i < j < |puts| ==> puts[j].key != k;
      forall j | i < j < |envs| ensures Place(envs[j], version) != k { assert puts[j].key != k; }
      assert Place(envs[i], version) == k && envs[i].box == Some(rows[k].box);
    }
  }

  /** The user is named before anyone who cannot receive shares. */
  ghost predicate NamedInTime(dir: Directory, me: UserId, ids: seq<string>, u: UserId) {
    && u != "" && u != me
    && exists i :: 0 <= i < |ids| && Trim(ids[i]) == u && forall j :: 0 <= j <= i ==> !Unreachable(dir, me, ids[j])
  }

  /** Nobody up to this position is unreachable. */
  ghost predicate AllReachable(dir: Directory, me: UserId, ids: seq<string>) {
    forall i :: 0 <= i < |ids| ==> !Unreachable(dir, me, ids[i])
  }

  lemma InTimeMore(dir: Directory, me: UserId, ids: seq<string>, id: string, u: UserId)
    ensures NamedInTime(dir, me, ids + [id], u) <==>
              NamedInTime(dir, me, ids, u) || (u != "" && u != me && Trim(id) == u && AllReachable(dir, me, ids + [id]))
  {
    var more := ids + [id];
    if NamedInTime(dir, me, ids, u) {
      var i :| 0 <= i < |ids| && Trim(ids[i]) == u && forall j :: 0 <= j <= i ==> !Unreachable(dir, me, ids[j]);
      assert more[i] == ids[i] && forall j :: 0 <= j <= i ==> more[j] == ids[j];
    }
    if NamedInTime(dir, me, more, u) {
      var i :| 0 <= i < |more| && Trim(more[i]) == u && forall j :: 0 <= j <= i ==> !Unreachable(dir, me, more[j]);
      if i < |ids| { assert ids[i] == more[i] && forall j :: 0 <= j <= i ==> ids[j] == more[j]; }
    }
    if u != "" && u != me && Trim(id) == u && AllReachable(dir, me, more) {
      assert more[|ids|] == id;
    }
  }

  lemma {:induction false} MarkedInTime(dir: Directory, me: UserId, ids: seq<string>)
    ensures forall u :: u in UsersBeforeFailure(dir, me, ids).0 <==> NamedInTime(dir, me, ids, u)
    ensures UsersBeforeFailure(dir, me, ids).1 <==> !AllReachable(dir, me, ids)
  {
    if ids != [] {
      var init, last := ids[..|ids| - 1], ids[|ids| - 1];
      assert ids == init + [last];
      MarkedInTime(dir, me, init);
      assert AllReachable(dir, me, ids) <==> AllReachable(dir, me, init) && !Unreachable(dir, me, last);
      forall u { InTimeMore(dir, me, init, last, u); }
    }
  }

  /** Somebody other than the creator is named, or a group. */
  predicate NamesTargets(me: UserId, r: CreateReq) {
    || (exists i :: 0 <= i < |r.shareUsers| && Trim(r.shareUsers[i]) != "" && Trim(r.shareUsers[i]) != me)
    || (exists i :: 0 <= i < |r.shareGroups| && Trim(r.shareGroups[i]) != "")
  }

  lemma TargetsNamed(me: UserId, r: CreateReq)
    ensures NamesTargets(me, r) <==> ShareTargets(me, r) != ({}, {})
  {
    var (users, groups) := ShareTargets(me, r);
    forall i | 0 <= i < |r.shareUsers| && Trim(r.shareUsers[i]) != "" && Trim(r.shareUsers[i]) != me ensures users != {} {
      assert r.shareUsers[i] in r.shareUsers;
      assert Trim(r.shareUsers[i]) in users;
    }
    forall i | 0 <= i < |r.shareGroups| && Trim(r.shareGroups[i]) != "" ensures groups != {} {
      assert r.shareGroups[i] in r.shareGroups;
      assert Trim(r.shareGroups[i]) in groups;
    }
    if users != {} {
      var u :| u in users;
      var id :| id in r.shareUsers && Trim(id) == u;
      var i :| 0 <= i < |r.shareUsers| && r.shareUsers[i] == id;
    }
    if groups != {} {
      var g :| g in groups;
      var id :| id in r.shareGroups && Trim(id) == g;
      var i :| 0 <= i < |r.shareGroups| && r.shareGroups[i] == id;
    }
  }

  ghost predicate CreationGood(me: UserId, r: CreateReq) {
    && r.title.Some? && r.payload.Some? && r.envelopes != [] && (forall e :: e in r.envelopes ==> e.box.Some?)
    && (Trim(r.visibility) == "shared" ==> NamesTargets(me, r))
  }

  ghost predicate SomeUnreachable(dir: Directory, me: UserId, r: CreateReq) {
    exists i :: 0 <= i < |r.shareUsers| && Unreachable(dir, me, r.shareUsers[i])
  }

  /** A creation stores a secret exactly if it is good, and is refused after that exactly if a user it names
      cannot receive shares. */
  lemma CreateAnswers(dir: Directory, me: UserId, r: CreateReq)
    ensures var c := CreateStep(dir, me, r);
            && (c.secret.Some? <==> CreationGood(me, r))
            && (c.refusal.None? <==> CreationGood(me, r) && !SomeUnreachable(dir, me, r))
            && (c.secret.Some? && c.refusal.Some? ==> c.refusal == Some(RecipientNotOnboarded))
            && (c.secret.None? ==>
                  c.refusal == Some(if r.title.None? || r.payload.None? then InvalidCiphertext
                                    else if r.envelopes == [] then EnvelopesRequired
                                    else if Trim(r.visibility) == "shared" && !NamesTargets(me, r) then SharesRequired
                                    else InvalidEnvelope))
  {
    TargetsNamed(me, r);
    MarkedInTime(dir, me, r.shareUsers);
    if AllBoxed(r.envelopes) {
      assert forall e :: e in r.envelopes ==> e.box.Some?;
      PlacedRows(r.envelopes, CreateVersion(r.version));
    } else {
      var i :| 0 <= i < |r.envelopes| && r.envelopes[i].box.None?;
      assert r.envelopes[i] in r.envelopes;
    }
  }

  /** A secret that a creation leaves holds what was sent, each part in its place, the last envelope sent for
      each place and no other, and the capability asked for, write if none was, for exactly the users named
      before anyone unreachable and, if there is no such one, the groups named. */
  lemma CreateEffect(dir: Directory, me: UserId, r: CreateReq)
    requires CreateStep(dir, me, r).secret.Some?
    ensures var s := CreateStep(dir, me, r).secret.value;
            && s.owner == me && Some(s.title) == r.title && Some(s.payload) == r.payload
            && s.version == (if r.version == 0 then 1 else r.version)
            && (s.shared <==> NamesTargets(me, r))
            && (forall k :: k in s.rows <==> exists e :: e in r.envelopes && Place(e, s.version) == k)
            && (forall k :: k in s.rows ==> !s.rows[k].revoked && LastPlaced(r.envelopes, s.version, k, s.rows[k].box))
    ensures var s := CreateStep(dir, me, r).secret.value;
            var cap := if r.capability == Empty then Write else r.capability;
            && (forall u :: u in s.directs <==> NamedInTime(dir, me, r.shareUsers, u))
            && (forall g :: g in s.groups <==> !SomeUnreachable(dir, me, r) && Listed(r.shareGroups, g))
            && (forall u :: u in s.directs ==> s.directs[u] == cap)
            && (forall g :: g in s.groups ==> s.groups[g] == cap)
  {
    TargetsNamed(me, r);
    MarkedInTime(dir, me, r.shareUsers);
    PlacedRows(r.envelopes, CreateVersion(r.version));
    NamedAreListed(r.shareGroups);
  }
}
