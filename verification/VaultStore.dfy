/** The persistence contract for one tenant: reads list what is stored, and each write is one transaction. */
module VaultStore {
  import opened Capability
  import opened Crypto
  import opened Prelude
  import opened VaultModel

  datatype KeyEnvelope = KeyEnvelope(secret: SecretId, user: UserId, version: nat, box: Box)
  datatype DirectShare = DirectShare(user: UserId, capability: Cap)
  datatype GroupShare = GroupShare(secret: SecretId, group: GroupId, capability: Cap)

  lemma {:induction false} ListedOnce<T>(list: seq<T>, s: set<T>)
    requires forall x :: x in list <==> x in s
    requires forall i, j :: 0 <= i < j < |list| ==> list[i] != list[j]
    ensures |list| == |s|
  {
    if list != [] {
      var init, last := list[..|list| - 1], list[|list| - 1];
      assert forall x :: x in list <==> x in init || x == last;
      ListedOnce(init, s - {last});
    }
  }

  /** The members of a set in some order, each once. */
  method Elements<T(==)>(s: set<T>) returns (list: seq<T>)
    ensures forall x :: x in list <==> x in s
    ensures forall i, j :: 0 <= i < j < |list| ==> list[i] != list[j]
  {
    list := [];
    var rest := s;
    while rest != {}
      invariant rest <= s
      invariant forall x :: x in list <==> x in s - rest
      invariant forall i, j :: 0 <= i < j < |list| ==> list[i] != list[j]
      decreases rest
    {
      var x :| x in rest;
      assert x !in list;
      list, rest := list + [x], rest - {x};
    }
  }

  class Store {
    var secrets: map<SecretId, Secret>
    var users: map<UserId, User>
    var members: map<GroupId, set<UserId>>

    constructor ()
      ensures secrets == map[] && users == map[] && members == map[]
    {
      secrets, users, members := map[], map[], map[];
    }

    function Dir(): Directory
      reads this
    {
      Directory(users, members)
    }

    // ---- Reads ------------------------------------------------------------------------------

    /** All envelopes that are not revoked. */
    method ListKeyEnvelopes(id: SecretId) returns (list: seq<KeyEnvelope>)
      ensures id !in secrets ==> list == []
      ensures id in secrets ==>
                && (forall e :: e in list ==> e.secret == id && LiveAt(secrets[id], e.user, e.version))
                && (forall u, v :: LiveAt(secrets[id], u, v) ==>
                      KeyEnvelope(id, u, v, secrets[id].rows[RowKey(u, v)].box) in list)
                && (forall e :: e in list ==> e.box == secrets[id].rows[RowKey(e.user, e.version)].box)
    {
      list := [];
      if id in secrets {
        var rows := secrets[id].rows;
        var live := set k | k in rows && !rows[k].revoked;
        var keys := Elements(live);
        assert forall i :: 0 <= i < |keys| ==> keys[i] in live;
        list := seq(|keys|, i requires 0 <= i < |keys| && keys[i] in rows =>
                      KeyEnvelope(id, keys[i].user, keys[i].version, rows[keys[i]].box));
        forall u, v | LiveAt(secrets[id], u, v)
          ensures KeyEnvelope(id, u, v, rows[RowKey(u, v)].box) in list
        {
          assert RowKey(u, v) in live;
          var i :| 0 <= i < |keys| && keys[i] == RowKey(u, v);
          assert list[i] == KeyEnvelope(id, u, v, rows[RowKey(u, v)].box);
        }
      }
    }

    method ListSecretDirectShares(id: SecretId) returns (list: seq<DirectShare>)
      ensures id !in secrets ==> list == []
      ensures id in secrets ==>
                forall u, c :: DirectShare(u, c) in list <==> u in secrets[id].directs && secrets[id].directs[u] == c
    {
      list := [];
      if id in secrets {
        var directs := secrets[id].directs;
        var keys := Elements(directs.Keys);
        list := seq(|keys|, i requires 0 <= i < |keys| && keys[i] in directs => DirectShare(keys[i], directs[keys[i]]));
        forall u | u in directs ensures DirectShare(u, directs[u]) in list {
          var i :| 0 <= i < |keys| && keys[i] == u;
          assert list[i] == DirectShare(u, directs[u]);
        }
      }
    }

    method ListSecretGroupShares(id: SecretId) returns (list: seq<GroupShare>)
      ensures id !in secrets ==> list == []
      ensures id in secrets ==>
                && (forall sh :: sh in list ==> sh.secret == id)
                && (forall g, c :: GroupShare(id, g, c) in list <==> g in secrets[id].groups && secrets[id].groups[g] == c)
    {
      list := [];
      if id in secrets {
        var groups := secrets[id].groups;
        var keys := Elements(groups.Keys);
        list := seq(|keys|, i requires 0 <= i < |keys| && keys[i] in groups => GroupShare(id, keys[i], groups[keys[i]]));
        forall g | g in groups ensures GroupShare(id, g, groups[g]) in list {
          var i :| 0 <= i < |keys| && keys[i] == g;
          assert list[i] == GroupShare(id, g, groups[g]);
        }
      }
    }

    /** All group markers of the tenant, each once. */
    method ListSecretGroupSharesByTenant() returns (list: seq<GroupShare>)
      ensures forall sh :: sh in list <==> IsMarker(sh)
      ensures forall i, j :: 0 <= i < j < |list| ==> list[i] != list[j]
    {
      list := Elements(set id, g | id in secrets && g in secrets[id].groups :: GroupShare(id, g, secrets[id].groups[g]));
    }

    method ListSecretGroupSharesByGroup(group: GroupId) returns (list: seq<GroupShare>)
      ensures forall sh :: sh in list <==> IsMarker(sh) && sh.group == group
      ensures forall i, j :: 0 <= i < j < |list| ==> list[i] != list[j]
    {
      list := Elements(set id | id in secrets && group in secrets[id].groups :: GroupShare(id, group, secrets[id].groups[group]));
    }

    predicate IsMarker(sh: GroupShare)
      reads this
    {
      sh.secret in secrets && sh.group in secrets[sh.secret].groups && secrets[sh.secret].groups[sh.group] == sh.capability
    }

    /** All envelopes of the tenant that are not revoked. */
    method ListKeyEnvelopesByTenant() returns (list: seq<KeyEnvelope>)
      ensures forall e :: e in list <==> IsLive(e)
    {
      list := Elements(set id, k | id in secrets && k in secrets[id].rows && !secrets[id].rows[k].revoked ::
                         KeyEnvelope(id, k.user, k.version, secrets[id].rows[k].box));
      forall e | IsLive(e) ensures e in list {
        assert RowKey(e.user, e.version) in secrets[e.secret].rows;
      }
    }

    predicate IsLive(e: KeyEnvelope)
      reads this
    {
      && e.secret in secrets && RowKey(e.user, e.version) in secrets[e.secret].rows
      && secrets[e.secret].rows[RowKey(e.user, e.version)] == Row(e.box, false)
    }

    method ListSecretKeyVersions() returns (versions: map<SecretId, nat>)
      ensures versions.Keys == secrets.Keys && forall id :: id in secrets ==> versions[id] == secrets[id].version
    {
      versions := map id | id in secrets :: secrets[id].version;
    }

    method ListUserGroups(user: UserId) returns (list: seq<GroupId>)
      ensures forall g :: g in list <==> user in Dir().MembersOf(g)
    {
      list := Elements(set g | g in members && user in members[g]);
    }

    /** At most that many users. */
    method ListUsers(limit: nat) returns (list: seq<UserId>)
      ensures |list| <= limit && forall u :: u in list ==> u in users
      ensures |users| <= limit ==> forall u :: u in users ==> u in list
    {
      list := Elements(users.Keys);
      ListedOnce(list, users.Keys);
      if |list| > limit { list := list[..limit]; }
    }

    method ListGroupMembers(group: GroupId) returns (list: seq<UserId>)
      ensures forall u :: u in list <==> u in Dir().MembersOf(group)
      ensures forall i, j :: 0 <= i < j < |list| ==> list[i] != list[j]
    {
      list := Elements(Dir().MembersOf(group));
    }

    // ---- Writes, each one transaction -------------------------------------------------------

    /** Envelopes and direct markers together, or nothing at all. */
    method ShareSecret(id: SecretId, puts: seq<Put>, directs: seq<DirectShare>) returns (ok: bool)
      requires id in secrets
      modifies this`secrets
      ensures ok <==> PutAll(old(secrets)[id].rows, puts).Some?
      ensures !ok ==> secrets == old(secrets)
      ensures ok ==>
                secrets == old(secrets)[id := old(secrets)[id].(
                             rows := PutAll(old(secrets)[id].rows, puts).value,
                             directs := PutDirects(old(secrets)[id].directs, directs))]
    {
      var s := secrets[id];
      var rows := PutAll(s.rows, puts);
      ok := rows.Some?;
      if ok {
        secrets := secrets[id := s.(rows := rows.value, directs := PutDirects(s.directs, directs))];
      }
    }

    /** Envelopes and the group marker together, or nothing at all. */
    method ShareSecretGroup(id: SecretId, puts: seq<Put>, group: GroupId, capability: Cap) returns (ok: bool)
      requires id in secrets
      modifies this`secrets
      ensures ok <==> PutAll(old(secrets)[id].rows, puts).Some?
      ensures !ok ==> secrets == old(secrets)
      ensures ok ==>
                secrets == old(secrets)[id := old(secrets)[id].(
                             rows := PutAll(old(secrets)[id].rows, puts).value,
                             groups := old(secrets)[id].groups[group := capability])]
    {
      var s := secrets[id];
      var rows := PutAll(s.rows, puts);
      ok := rows.Some?;
      if ok {
        secrets := secrets[id := s.(rows := rows.value, groups := s.groups[group := capability])];
      }
    }

    /** Revokes the old version and writes the new contents and envelopes together, or nothing at all. */
    method RotateSecret(id: SecretId, oldVersion: nat, title: Cipher, payload: Cipher, version: nat, puts: seq<Put>)
      returns (ok: bool)
      requires id in secrets
      modifies this`secrets
      ensures ok <==> PutAll(Revoke(old(secrets)[id].rows, oldVersion), puts).Some?
      ensures !ok ==> secrets == old(secrets)
      ensures ok ==>
                secrets == old(secrets)[id := old(secrets)[id].(
                             title := title, payload := payload, version := version,
                             rows := PutAll(Revoke(old(secrets)[id].rows, oldVersion), puts).value)]
    {
      var s := secrets[id];
      var rows := PutAll(Revoke(s.rows, oldVersion), puts);
      ok := rows.Some?;
      if ok {
        secrets := secrets[id := s.(title := title, payload := payload, version := version, rows := rows.value)];
      }
    }

    method CreateSecret(id: SecretId, owner: UserId, shared: bool, title: Cipher, payload: Cipher, version: nat,
                        puts: seq<Put>) returns (ok: bool)
      modifies this`secrets
      ensures ok <==> PutAll(map[], puts).Some?
      ensures !ok ==> secrets == old(secrets)
      ensures ok ==>
                secrets == old(secrets)[id := Secret(owner, shared, title, payload, version,
                                                    PutAll(map[], puts).value, map[], map[])]
    {
      var rows := PutAll(map[], puts);
      ok := rows.Some?;
      if ok {
        secrets := secrets[id := Secret(owner, shared, title, payload, version, rows.value, map[], map[])];
      }
    }

    method PutSecretMeta(id: SecretId, title: Cipher, shared: bool)
      requires id in secrets
      modifies this`secrets
      ensures secrets == old(secrets)[id := old(secrets)[id].(title := title, shared := shared)]
    {
      secrets := secrets[id := secrets[id].(title := title, shared := shared)];
    }

    method PutSecretCiphertext(id: SecretId, payload: Cipher, version: nat)
      requires id in secrets
      modifies this`secrets
      ensures secrets == old(secrets)[id := old(secrets)[id].(payload := payload, version := version)]
    {
      secrets := secrets[id := secrets[id].(payload := payload, version := version)];
    }

    method PutSecretDirectShare(id: SecretId, user: UserId, capability: Cap)
      requires id in secrets
      modifies this`secrets
      ensures secrets == old(secrets)[id := old(secrets)[id].(directs := old(secrets)[id].directs[user := capability])]
    {
      secrets := secrets[id := secrets[id].(directs := secrets[id].directs[user := capability])];
    }

    method PutSecretGroupShare(id: SecretId, group: GroupId, capability: Cap)
      requires id in secrets
      modifies this`secrets
      ensures secrets == old(secrets)[id := old(secrets)[id].(groups := old(secrets)[id].groups[group := capability])]
    {
      secrets := secrets[id := secrets[id].(groups := secrets[id].groups[group := capability])];
    }

    method DeleteSecretDirectShare(id: SecretId, user: UserId)
      requires id in secrets
      modifies this`secrets
      ensures secrets == old(secrets)[id := old(secrets)[id].(directs := old(secrets)[id].directs - {user})]
    {
      secrets := secrets[id := secrets[id].(directs := secrets[id].directs - {user})];
    }

    method DeleteSecretGroupShare(id: SecretId, group: GroupId)
      requires id in secrets
      modifies this`secrets
      ensures secrets == old(secrets)[id := old(secrets)[id].(groups := old(secrets)[id].groups - {group})]
    {
      secrets := secrets[id := secrets[id].(groups := secrets[id].groups - {group})];
    }
  }

  function PutDirects(directs: map<UserId, Cap>, list: seq<DirectShare>): map<UserId, Cap> {
    if list == [] then directs
    else PutDirects(directs, list[..|list| - 1])[list[|list| - 1].user := list[|list| - 1].capability]
  }
}
