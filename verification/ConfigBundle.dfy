/** The instance configuration: normalised on every read, written under one lock, the policy only by its own handler. */
module ConfigBundle {
  import opened Prelude
  import Shamir

  datatype Policy = Policy(
    totpRequired: bool, sessionHours: int, unlockIdleMinutes: int, escrowShamirK: int, escrowShamirN: int,
    ldapSyncHours: int, adminSecretsEnvelopeOnly: bool,
    offlineCacheAllowed: Option<bool>, offlineKeyRequirement: Option<string>,
    cli: Option<bool>, browser: Option<bool>, desktop: Option<bool>)

  /** `settings` stands for the fields that loading never looks at. */
  datatype LDAPConfig = LDAPConfig(settings: nat, caCertPEM: string)
  datatype LDAPConnection = LDAPConnection(id: string, config: LDAPConfig)
  datatype Argon2 = Argon2(keyLen: nat, settings: nat)
  datatype MailTemplates = MailTemplates(inviteSubject: string, bodies: nat)

  datatype Bundle = Bundle(
    argon2: Argon2, ldap: LDAPConfig, connections: seq<LDAPConnection>, templates: MailTemplates,
    policy: Policy, caCertPEM: string, rest: nat)

  const DEFAULT_ARGON2 := Argon2(32, 0)
  const DEFAULT_TEMPLATES := MailTemplates("TeamVault Einladung", 0)
  const DEFAULT_POLICY := Policy(false, 8, 15, 3, 5, 24, false, None, None, None, None, None)
  const DEFAULT_BUNDLE := Bundle(DEFAULT_ARGON2, LDAPConfig(0, ""), [], DEFAULT_TEMPLATES, DEFAULT_POLICY, "", 0)

  // ---- Normalisation ------------------------------------------------------------------------

  function NormalPolicy(p: Policy): Policy {
    var k := if p.escrowShamirK < 2 then 3 else p.escrowShamirK;
    p.(sessionHours := if p.sessionHours <= 0 then 8 else p.sessionHours,
       unlockIdleMinutes := if p.unlockIdleMinutes <= 0 then 15 else p.unlockIdleMinutes,
       escrowShamirK := k,
       escrowShamirN := if p.escrowShamirN < k then 5 else p.escrowShamirN)
  }

  /** A secret can be split as the normalised policy says exactly if no more than 255 shares were asked for,
      and, from a threshold of six on, no fewer than the threshold: the default of five shares is too few then. */
  lemma EscrowSplitsIff(p: Policy, secret: seq<bv8>, perm: seq<bv8>, coins: Shamir.Coins)
    requires secret != [] && Shamir.IsPermutation(perm)
    ensures var q := NormalPolicy(p);
            (p.escrowShamirN <= 255 && (p.escrowShamirK <= 5 || p.escrowShamirK <= p.escrowShamirN))
              <==> Shamir.SplitSpec(secret, q.escrowShamirN, q.escrowShamirK, perm, coins).Success?
  {}

  /** A threshold of six with four shares becomes six of five, which no secret can be split into. */
  lemma SixOfFourRefused(p: Policy, secret: seq<bv8>, perm: seq<bv8>, coins: Shamir.Coins)
    requires p.escrowShamirK == 6 && p.escrowShamirN == 4 && Shamir.IsPermutation(perm)
    ensures var q := NormalPolicy(p);
            q.escrowShamirN == 5
            && Shamir.SplitSpec(secret, q.escrowShamirN, q.escrowShamirK, perm, coins) == Shamir.Failure(Shamir.PartsBelowThreshold)
  {}

  /** Field by field: hours, idle minutes and shares that make no sense are replaced, nothing else is touched. */
  lemma NormalFields(p: Policy)
    ensures var q := NormalPolicy(p);
            && (p.sessionHours > 0 ==> q.sessionHours == p.sessionHours) && (p.sessionHours <= 0 ==> q.sessionHours == 8)
            && (p.unlockIdleMinutes > 0 ==> q.unlockIdleMinutes == p.unlockIdleMinutes)
            && (p.unlockIdleMinutes <= 0 ==> q.unlockIdleMinutes == 15)
            && (p.escrowShamirK >= 2 ==> q.escrowShamirK == p.escrowShamirK) && (p.escrowShamirK < 2 ==> q.escrowShamirK == 3)
            && q.escrowShamirN == (if p.escrowShamirN >= q.escrowShamirK then p.escrowShamirN else 5)
            && q.totpRequired == p.totpRequired && q.ldapSyncHours == p.ldapSyncHours
            && q.adminSecretsEnvelopeOnly == p.adminSecretsEnvelopeOnly
            && q.offlineCacheAllowed == p.offlineCacheAllowed && q.offlineKeyRequirement == p.offlineKeyRequirement
            && q.cli == p.cli && q.browser == p.browser && q.desktop == p.desktop
  {}

  /** A policy left out altogether normalises to the default one, but for the synchronisation hours. */
  lemma DefaultsAreNormal()
    ensures NormalPolicy(Policy(false, 0, 0, 0, 0, 24, false, None, None, None, None, None)) == Loaded(None).policy
  {}

  function Cleared(cs: seq<LDAPConnection>): (r: seq<LDAPConnection>)
    ensures |r| == |cs|
    ensures forall i :: 0 <= i < |cs| ==> r[i] == cs[i].(config := cs[i].config.(caCertPEM := ""))
  {
    seq(|cs|, i requires 0 <= i < |cs| => cs[i].(config := cs[i].config.(caCertPEM := "")))
  }

  /** The first trimmed certificate among the connections, if any is not blank. */
  function FirstCA(cs: seq<LDAPConnection>): string {
    if cs == [] then ""
    else if Trim(cs[0].config.caCertPEM) != "" then Trim(cs[0].config.caCertPEM)
    else FirstCA(cs[1..])
  }

  /** The instance certificate: its own if not blank, else the LDAP one, else the first of a connection. */
  function CompanyCA(b: Bundle): string {
    if Trim(b.caCertPEM) != "" then b.caCertPEM
    else if Trim(b.ldap.caCertPEM) != "" then Trim(b.ldap.caCertPEM)
    else if FirstCA(b.connections) != "" then FirstCA(b.connections)
    else b.caCertPEM
  }

  function Migrated(b: Bundle): Bundle {
    b.(caCertPEM := CompanyCA(b), ldap := b.ldap.(caCertPEM := ""), connections := Cleared(b.connections))
  }

  function Normal(b: Bundle): Bundle {
    Migrated(b.(policy := NormalPolicy(b.policy),
                argon2 := if b.argon2.keyLen == 0 then DEFAULT_ARGON2 else b.argon2,
                templates := if b.templates.inviteSubject == "" then DEFAULT_TEMPLATES else b.templates))
  }

  /** What is read from what is stored; nothing stored reads as the defaults. */
  function Loaded(extra: Option<Bundle>): Bundle {
    if extra.None? then DEFAULT_BUNDLE else Normal(extra.value)
  }

  /** Clears the certificates in place. */
  method ClearCAs(cs: array<LDAPConnection>)
    modifies cs
    ensures cs[..] == Cleared(old(cs[..]))
  {
    for i := 0 to cs.Length
      invariant forall k :: 0 <= k < i ==> cs[k] == old(cs[k]).(config := old(cs[k]).config.(caCertPEM := ""))
      invariant forall k :: i <= k < cs.Length ==> cs[k] == old(cs[k])
    {
      cs[i] := cs[i].(config := cs[i].config.(caCertPEM := ""));
    }
  }

  method MigrateCompanyCA(bundle: Bundle) returns (b: Bundle)
    ensures b == Migrated(bundle)
  {
    b := bundle;
    var cs := new LDAPConnection[|b.connections|](i requires 0 <= i < |bundle.connections| => bundle.connections[i]);
    assert cs[..] == b.connections;
    if Trim(b.caCertPEM) == "" {
      var p := Trim(b.ldap.caCertPEM);
      if p != "" {
        b := b.(caCertPEM := p);
      } else {
        p := FindCA(cs[..]);
        if p != "" { b := b.(caCertPEM := p); }
      }
    }
    b := b.(ldap := b.ldap.(caCertPEM := ""));
    ClearCAs(cs);
    b := b.(connections := cs[..]);
  }

  method FindCA(cs: seq<LDAPConnection>) returns (p: string)
    ensures p == FirstCA(cs)
  {
    for i := 0 to |cs|
      invariant FirstCA(cs) == FirstCA(cs[i..])
    {
      assert cs[i..][1..] == cs[i + 1..];
      p := Trim(cs[i].config.caCertPEM);
      if p != "" { return; }
    }
    p := "";
  }

  method Load(extra: Option<Bundle>) returns (b: Bundle)
    ensures b == Loaded(extra)
  {
    b := DEFAULT_BUNDLE;
    if extra.None? { return; }
    b := extra.value;
    var p := b.policy;
    if p.sessionHours <= 0 { p := p.(sessionHours := 8); }
    if p.unlockIdleMinutes <= 0 { p := p.(unlockIdleMinutes := 15); }
    if p.escrowShamirK < 2 { p := p.(escrowShamirK := 3); }
    if p.escrowShamirN < p.escrowShamirK { p := p.(escrowShamirN := 5); }
    b := b.(policy := p);
    if b.argon2.keyLen == 0 { b := b.(argon2 := DEFAULT_ARGON2); }
    if b.templates.inviteSubject == "" { b := b.(templates := DEFAULT_TEMPLATES); }
    b := MigrateCompanyCA(b);
  }

  // ---- Reading back what was read -----------------------------------------------------------

  lemma {:induction false} NoFirstCA(cs: seq<LDAPConnection>)
    requires forall i :: 0 <= i < |cs| ==> cs[i].config.caCertPEM == ""
    ensures FirstCA(cs) == ""
  {
    assert Trim("") == "";
    if cs != [] { NoFirstCA(cs[1..]); }
  }

  lemma NormalStable(b: Bundle)
    ensures Normal(Normal(b)) == Normal(b)
  {
    assert Trim("") == "";
    NoFirstCA(Cleared(b.connections));
    assert Cleared(Cleared(b.connections)) == Cleared(b.connections);
  }

  /** Saving what was loaded and loading it again gives the same; so loading is stable. */
  lemma LoadStable(extra: Option<Bundle>)
    ensures Loaded(Some(Loaded(extra))) == Loaded(extra)
  {
    if extra.Some? {
      NormalStable(extra.value);
    } else {
      assert Trim("") == "";
      assert Cleared([]) == [];
    }
  }

  /** The certificates stored outside the instance's own, in the order they are looked at. */
  function Certificates(b: Bundle): (certs: seq<string>)
    ensures |certs| == |b.connections| + 1 && certs[0] == b.ldap.caCertPEM
    ensures forall i :: 0 <= i < |b.connections| ==> certs[i + 1] == b.connections[i].config.caCertPEM
  {
    [b.ldap.caCertPEM] + seq(|b.connections|, i requires 0 <= i < |b.connections| => b.connections[i].config.caCertPEM)
  }

  lemma {:induction false} FirstCAIs(cs: seq<LDAPConnection>)
    ensures FirstCA(cs) == "" <==> forall i :: 0 <= i < |cs| ==> Trim(cs[i].config.caCertPEM) == ""
    ensures FirstCA(cs) != "" ==> exists i :: 0 <= i < |cs| && FirstFound(cs, i)
  {
    if cs != [] && Trim(cs[0].config.caCertPEM) != "" {
      assert FirstFound(cs, 0);
    } else if cs != [] {
      FirstCAIs(cs[1..]);
      assert forall i :: 1 <= i < |cs| ==> cs[i] == cs[1..][i - 1];
      if FirstCA(cs) != "" {
        var i :| 0 <= i < |cs| - 1 && FirstFound(cs[1..], i);
        assert forall j :: 0 <= j < i ==> cs[1..][j] == cs[j + 1];
        assert FirstFound(cs, i + 1);
      }
    }
  }

  ghost predicate FirstFound(cs: seq<LDAPConnection>, i: nat)
    requires i < |cs|
  {
    && FirstCA(cs) == Trim(cs[i].config.caCertPEM) != "" && forall j :: 0 <= j < i ==> Trim(cs[j].config.caCertPEM) == ""
  }

  /** The i-th of these certificates is the first that is not blank. */
  ghost predicate FirstNotBlank(certs: seq<string>, i: nat) {
    i < |certs| && Trim(certs[i]) != "" && forall j :: 0 <= j < i ==> Trim(certs[j]) == ""
  }

  lemma NoneElsewhere(b: Bundle)
    requires forall i :: 0 <= i < |Certificates(b)| ==> Trim(Certificates(b)[i]) == ""
    ensures Trim(b.ldap.caCertPEM) == "" && FirstCA(b.connections) == ""
  {
    var certs := Certificates(b);
    assert Trim(certs[0]) == "";
    forall i | 0 <= i < |b.connections| ensures Trim(b.connections[i].config.caCertPEM) == "" { assert Trim(certs[i + 1]) == ""; }
    FirstCAIs(b.connections);
  }

  /** The instance's certificate after loading: its own if that is not blank, else the first one stored elsewhere
      that is not, trimmed; if there is none at all it stays. */
  lemma CertificateLifted(b: Bundle)
    ensures Trim(b.caCertPEM) != "" ==> Normal(b).caCertPEM == b.caCertPEM
    ensures Trim(b.caCertPEM) == "" && (forall i :: 0 <= i < |Certificates(b)| ==> Trim(Certificates(b)[i]) == "") ==>
              Normal(b).caCertPEM == b.caCertPEM
    ensures Trim(b.caCertPEM) == "" ==>
              forall i: nat :: FirstNotBlank(Certificates(b), i) ==> Normal(b).caCertPEM == Trim(Certificates(b)[i])
  {
    var certs := Certificates(b);
    if Trim(b.caCertPEM) == "" {
      forall i: nat | FirstNotBlank(certs, i) ensures CompanyCA(b) == Trim(certs[i]) {
        if i > 0 { SameFirst(b, i); }
      }
      if forall i :: 0 <= i < |certs| ==> Trim(certs[i]) == "" { NoneElsewhere(b); }
    }
  }

  /** The certificates elsewhere are gone, and all other settings are as stored or, where absent, the defaults. */
  lemma SettingsStay(b: Bundle)
    ensures var r := Normal(b);
            && r.ldap == b.ldap.(caCertPEM := "") && |r.connections| == |b.connections| && r.rest == b.rest
            && (forall i :: 0 <= i < |b.connections| ==>
                  r.connections[i] == LDAPConnection(b.connections[i].id, LDAPConfig(b.connections[i].config.settings, "")))
            && r.policy == NormalPolicy(b.policy)
            && r.argon2 == (if b.argon2.keyLen == 0 then DEFAULT_ARGON2 else b.argon2)
            && r.templates == (if b.templates.inviteSubject == "" then DEFAULT_TEMPLATES else b.templates)
  {}

  lemma SameFirst(b: Bundle, i: nat)
    requires i > 0 && FirstNotBlank(Certificates(b), i)
    ensures Trim(b.ldap.caCertPEM) == "" && FirstCA(b.connections) == Trim(Certificates(b)[i])
  {
    var certs := Certificates(b);
    assert Trim(certs[0]) == "" && certs[i] == b.connections[i - 1].config.caCertPEM;
    FirstCAIs(b.connections);
    var k :| 0 <= k < |b.connections| && FirstFound(b.connections, k);
    assert certs[k + 1] == b.connections[k].config.caCertPEM;
    assert Trim(certs[k + 1]) != "" && k == i - 1;
  }

  // ---- The two writers ----------------------------------------------------------------------

  predicate KnownRequirement(s: string) { s == "ANY" || s == "SOFTWARE" || s == "HARDWARE" || s == "COMBINED" }

  /** Fields left open keep their stored value. */
  function Filled(p: Policy, stored: Policy): Policy {
    p.(offlineCacheAllowed := if p.offlineCacheAllowed.None? then stored.offlineCacheAllowed else p.offlineCacheAllowed,
       offlineKeyRequirement := if p.offlineKeyRequirement.None? then stored.offlineKeyRequirement else p.offlineKeyRequirement)
  }

  predicate Acceptable(p: Policy) {
    KnownRequirement(if p.offlineKeyRequirement.None? then "ANY" else p.offlineKeyRequirement.value)
  }

  function BundleSaved(extra: Option<Bundle>, b: Bundle): Option<Bundle> { Some(b.(policy := Loaded(extra).policy)) }

  function PolicySaved(extra: Option<Bundle>, p: Policy): Option<Bundle> {
    var filled := Filled(p, Loaded(extra).policy);
    if Acceptable(filled) then Some(Loaded(extra).(policy := filled)) else extra
  }

  class Config {
    var extra: Option<Bundle>

    constructor (extra: Option<Bundle>)
      ensures this.extra == extra
    {
      this.extra := extra;
    }

    method ReadBundle() returns (b: Bundle)
      ensures b == Loaded(extra)
    {
      b := Load(extra);
    }

    /** The whole bundle except the policy, which stays as stored. */
    method SaveBundle(bundle: Bundle)
      modifies this
      ensures extra == BundleSaved(old(extra), bundle)
    {
      var stored := Load(extra);
      var b := bundle.(policy := stored.policy);
      extra := Some(b);
    }

    method SavePolicy(policy: Policy) returns (p: Policy, ok: bool)
      modifies this
      ensures p == Filled(policy, Loaded(old(extra)).policy)
      ensures ok <==> Acceptable(p)
      ensures extra == PolicySaved(old(extra), policy)
    {
      p := policy;
      var b := Load(extra);
      if p.offlineCacheAllowed.None? { p := p.(offlineCacheAllowed := b.policy.offlineCacheAllowed); }
      if p.offlineKeyRequirement.None? { p := p.(offlineKeyRequirement := b.policy.offlineKeyRequirement); }
      ok := KnownRequirement(if p.offlineKeyRequirement.None? then "ANY" else p.offlineKeyRequirement.value);
      if !ok { return; }
      extra := Some(b.(policy := p));
    }
  }

  /** What a save leaves, field by field: open fields keep what is stored, all others are those saved. It is refused
      exactly for a requirement, its own or, left open, the stored one, that is none of the four words. */
  lemma PolicySaveFields(extra: Option<Bundle>, p: Policy)
    ensures var stored := Loaded(extra).policy;
            var wanted := if p.offlineKeyRequirement.Some? then p.offlineKeyRequirement else stored.offlineKeyRequirement;
            var good := wanted.None? || wanted.value in {"ANY", "SOFTWARE", "HARDWARE", "COMBINED"};
            && (!good ==> PolicySaved(extra, p) == extra)
            && (good ==>
                  && PolicySaved(extra, p).Some? && var q := PolicySaved(extra, p).value.policy;
                  && q.offlineKeyRequirement == wanted
                  && q.offlineCacheAllowed == (if p.offlineCacheAllowed.Some? then p.offlineCacheAllowed else stored.offlineCacheAllowed)
                  && q == p.(offlineKeyRequirement := q.offlineKeyRequirement, offlineCacheAllowed := q.offlineCacheAllowed)
                  && PolicySaved(extra, p).value == Loaded(extra).(policy := q))
  {}

  // ---- Interleavings ------------------------------------------------------------------------

  /** Handlers read a draft, change it at leisure, and save it later; policy saves come in between. */
  datatype Event = Read(handler: nat) | Edit(handler: nat, draft: Bundle) | Save(handler: nat) | SetPolicy(policy: Policy)

  datatype World = World(extra: Option<Bundle>, drafts: map<nat, Bundle>)

  function Next(w: World, ev: Event): World {
    match ev
    case Read(h) => w.(drafts := w.drafts[h := Loaded(w.extra)])
    case Edit(h, b) => w.(drafts := w.drafts[h := b])
    case Save(h) => if h in w.drafts then w.(extra := BundleSaved(w.extra, w.drafts[h])) else w
    case SetPolicy(p) => w.(extra := PolicySaved(w.extra, p))
  }

  function Run(w: World, evs: seq<Event>): World {
    if evs == [] then w else Next(Run(w, evs[..|evs| - 1]), evs[|evs| - 1])
  }

  /** The policy the policy saves alone would leave, as it reads. */
  function LastPolicy(start: Policy, evs: seq<Event>): Policy {
    if evs == [] then start
    else
      var before := LastPolicy(start, evs[..|evs| - 1]);
      match evs[|evs| - 1]
      case SetPolicy(p) => if Acceptable(Filled(p, before)) then NormalPolicy(Filled(p, before)) else before
      case _ => before
  }

  /** In every interleaving the stored policy reads as the one the last policy save left, whatever stale
      drafts are saved before or after it. */
  lemma {:induction false} PolicyIsLastSaved(w: World, evs: seq<Event>)
    ensures Loaded(Run(w, evs).extra).policy == LastPolicy(Loaded(w.extra).policy, evs)
  {
    if evs != [] {
      var init := evs[..|evs| - 1];
      PolicyIsLastSaved(w, init);
      LoadStable(Run(w, init).extra);
    }
  }

  /** A policy save leaves every other section as it reads. */
  lemma PolicySaveLeavesRest(extra: Option<Bundle>, p: Policy)
    ensures var filled := Filled(p, Loaded(extra).policy);
            Loaded(PolicySaved(extra, p))
              == if Acceptable(filled) then Loaded(extra).(policy := NormalPolicy(filled)) else Loaded(extra)
  {
    LoadStable(extra);
  }

  /** A save makes every section but the policy read as the saver's draft, however old that draft is. */
  lemma SaveWins(w: World, h: nat)
    requires h in w.drafts
    ensures Loaded(Next(w, Save(h)).extra) == Normal(w.drafts[h]).(policy := Loaded(w.extra).policy)
  {
    LoadStable(w.extra);
  }

  /** A draft saved just as it was read changes nothing that can be read. */
  lemma UntouchedDraftHarmless(w: World, h: nat)
    ensures Loaded(Next(Next(w, Read(h)), Save(h)).extra) == Loaded(w.extra)
  {
    LoadStable(w.extra);
  }
}
