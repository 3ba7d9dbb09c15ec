/** What becomes of an accepted update over runs of honest clients with stale copies. */
module VaultContents {
  import opened Crypto
  import opened Prelude
  import opened VaultClients
  import opened VaultModel
  import opened VaultRuns

  /** What is sealed in title and payload. */
  datatype Contents = Contents(title: Option<Plain>, payload: Option<Plain>)

  function PlainOf(c: Cipher): Option<Plain> { if c.Sealed? then Some(c.plain) else None }

  function ContentsOf(s: Secret): Contents { Contents(PlainOf(s.title), PlainOf(s.payload)) }

  /** A run of honest clients from an openable secret, with the copy each request was built from. */
  datatype History = History(start: Secret, events: seq<Event>, copies: seq<nat>) {

    ghost predicate Valid() { |copies| == |events| && Openable(start) && HonestRun(start, events, copies) }

    /** The secret after the first `n` requests. */
    ghost function At(n: nat): Secret
      requires n <= |events|
    {
      Run(start, events[..n])
    }

    ghost predicate Updates(i: nat)
      requires i < |events|
    {
      events[i].request.DoUpdate? && Accepted(At(i), events[i])
    }

    ghost predicate Rotates(i: nat)
      requires i < |events|
    {
      events[i].request.DoRotate? && Accepted(At(i), events[i])
    }
  }

  // ---- Single steps -------------------------------------------------------------------------

  lemma AtNext(h: History, i: nat)
    requires i < |h.events|
    ensures h.At(i + 1) == After(h.At(i), h.events[i])
  {
    Snoc(h.events, i);
  }

  lemma {:induction false} HonestPrefix(start: Secret, evs: seq<Event>, copies: seq<nat>, n: nat)
    requires |copies| == |evs| && HonestRun(start, evs, copies) && n <= |evs|
    ensures HonestRun(start, evs[..n], copies[..n])
  {
    if n == |evs| {
      assert evs[..n] == evs && copies[..n] == copies;
    } else {
      var m := |evs| - 1;
      assert evs[..m][..n] == evs[..n] && copies[..m][..n] == copies[..n];
      HonestPrefix(start, evs[..m], copies[..m], n);
    }
  }

  /** Every request was built by an honest client from an earlier state, or the one it met. */
  lemma BuiltEarlier(h: History, i: nat)
    requires h.Valid() && i < |h.events|
    ensures h.copies[i] <= i && Honest(h.At(h.copies[i]), h.events[i].me, h.events[i].request)
  {
    HonestPrefix(h.start, h.events, h.copies, i + 1);
    assert h.events[..i + 1][..i] == h.events[..i];
    assert h.events[..i + 1][..h.copies[i]] == h.events[..h.copies[i]];
  }

  lemma LaterFollows(h: History, i: nat, j: nat)
    requires h.Valid() && i <= j <= |h.events|
    ensures Follows(h.At(i), h.At(j))
  {
    HonestPrefix(h.start, h.events, h.copies, j);
    OpenableThroughout(h.start, h.events[..j], h.copies[..j], i);
    assert h.events[..j][..i] == h.events[..i];
  }

  /** An accepted honest rotation seals what its copy held, and the copy was of the version in force. */
  lemma RotationCopies(s: Secret, ev: Event, copy: Secret)
    requires ev.request.DoRotate? && Follows(copy, s) && Honest(copy, ev.me, ev.request) && Accepted(s, ev)
    ensures ContentsOf(After(s, ev)) == ContentsOf(copy)
    ensures copy.version == s.version < After(s, ev).version
  {
    var k :| OpensTo(copy, ev.me, k) && BuiltWith(copy, k, ev.request);
    assert k == copy.payload.key;
  }

  lemma RotationAt(h: History, i: nat)
    requires h.Valid() && i < |h.events| && h.Rotates(i)
    ensures h.copies[i] <= i && h.At(h.copies[i]).version == h.At(i).version < h.At(i + 1).version
    ensures ContentsOf(h.At(i + 1)) == ContentsOf(h.At(h.copies[i]))
  {
    BuiltEarlier(h, i);
    LaterFollows(h, h.copies[i], i);
    AtNext(h, i);
    RotationCopies(h.At(i), h.events[i], h.At(h.copies[i]));
  }

  /** All other steps leave the contents. */
  lemma OthersLeaveContents(h: History, i: nat)
    requires i < |h.events| && !h.Updates(i) && !h.Rotates(i)
    ensures ContentsOf(h.At(i + 1)) == ContentsOf(h.At(i))
  {
    AtNext(h, i);
  }

  // ---- Stretches of a run -------------------------------------------------------------------

  /** Nothing is updated from state `a` to state `b`. */
  ghost predicate NoUpdates(h: History, a: nat, b: nat)
    requires b <= |h.events|
  {
    forall i :: a <= i < b ==> !h.Updates(i)
  }

  ghost predicate NoRotations(h: History, a: nat, b: nat)
    requires b <= |h.events|
  {
    forall i :: a <= i < b ==> !h.Rotates(i)
  }

  lemma {:induction false} UntouchedContents(h: History, a: nat, b: nat)
    requires a <= b <= |h.events| && NoUpdates(h, a, b) && NoRotations(h, a, b)
    ensures ContentsOf(h.At(b)) == ContentsOf(h.At(a))
  {
    if a < b {
      UntouchedContents(h, a, b - 1);
      OthersLeaveContents(h, b - 1);
    }
  }

  /** Right after a rotation no earlier copy is of any use: until the next update the contents stay, however
      often the secret is rotated. */
  lemma {:induction false} RotatedContents(h: History, r: nat, b: nat)
    requires h.Valid() && r < b <= |h.events| && h.Rotates(r) && NoUpdates(h, r + 1, b)
    ensures ContentsOf(h.At(b)) == ContentsOf(h.At(r + 1))
  {
    if r + 1 < b {
      var i := b - 1;
      RotatedContents(h, r, i);
      if h.Rotates(i) {
        RotationAt(h, i);
        RotationAt(h, r);
        var c := h.copies[i];
        LaterFollows(h, r + 1, i);
        if c <= r {
          LaterFollows(h, c, r);
          assert false;
        }
        RotatedContents(h, r, c);
      } else {
        OthersLeaveContents(h, i);
      }
    }
  }

  // ---- The last update ----------------------------------------------------------------------

  /** The first accepted rotation from event `i` on, or the end of the run. */
  ghost function NextRotation(h: History, i: nat): (r: nat)
    requires i <= |h.events|
    ensures i <= r <= |h.events| && NoRotations(h, i, r) && (r < |h.events| ==> h.Rotates(r))
    decreases |h.events| - i
  {
    if i == |h.events| || h.Rotates(i) then i else NextRotation(h, i + 1)
  }

  /** The first rotation after update `i` was built from a copy older than the update, holding something else. */
  ghost predicate Reverted(h: History, i: nat)
    requires h.Valid() && i < |h.events|
  {
    var r := NextRotation(h, i + 1);
    && r < |h.events|
    && h.copies[r] <= i && ContentsOf(h.At(h.copies[r])) != ContentsOf(h.At(i + 1))
  }

  /** What the last accepted update wrote is what the secret holds in the end, exactly if the first rotation
      after it, if there is one, was not built from an older copy that held something else. */
  lemma LastUpdateSurvivesIff(h: History, i: nat)
    requires h.Valid() && i < |h.events| && h.Updates(i) && NoUpdates(h, i + 1, |h.events|)
    ensures ContentsOf(h.At(|h.events|)) == ContentsOf(h.At(i + 1)) <==> !Reverted(h, i)
  {
    var n, r := |h.events|, NextRotation(h, i + 1);
    UntouchedContents(h, i + 1, r);
    if r < n {
      RotationAt(h, r);
      RotatedContents(h, r, n);
      var c := h.copies[r];
      if c > i { UntouchedContents(h, i + 1, c); }
    }
  }

  ghost function Edit(s: Secret, payload: Plain): UpdateReq
    requires Openable(s)
  {
    UpdateReq(Some(s.title), Some(EncryptPayload(payload, s.payload.key, s.version)), s.version)
  }

  /** The owner updates, and then rotates from the copy held before: both are accepted, and the update is gone. */
  lemma StaleRotationReverts(dir: Directory, s: Secret, payload: Plain, dk: Key)
    requires Openable(s)
    ensures var update := Event(dir, s.owner, DoUpdate(Edit(s, payload)));
            var rotation := Event(dir, s.owner, DoRotate(OwnRotation(s, dk)));
            && Honest(s, s.owner, update.request) && Honest(s, s.owner, rotation.request)
            && Accepted(s, update) && ContentsOf(After(s, update)).payload == Some(payload)
            && Accepted(After(s, update), rotation)
            && ContentsOf(After(After(s, update), rotation)) == ContentsOf(s)
  {
    var r := Edit(s, payload);
    assert LiveAt(s, s.owner, s.version) && OpensTo(s, s.owner, s.payload.key);
    assert HonestUpdate(s, s.payload.key, r);
    assert BuiltWith(s, s.payload.key, DoUpdate(r));
    OwnRotationAccepted(dir, s, dk);
    var s' := After(s, Event(dir, s.owner, DoUpdate(r)));
    SameRowsRotate(dir, s, s', OwnRotation(s, dk));
  }

  /** A rotation looks at rows, owner and markers only. */
  lemma SameRowsRotate(dir: Directory, s: Secret, s': Secret, req: RotateReq)
    requires s' == s.(title := s'.title, payload := s'.payload) && RotateStep(dir, s, s.owner, req).Done?
    ensures RotateStep(dir, s', s.owner, req) == RotateStep(dir, s, s.owner, req)
  {
    var v :| LiveAt(s, s.owner, v);
    assert LiveAt(s', s.owner, v);
  }
}
