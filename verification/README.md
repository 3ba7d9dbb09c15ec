# TeamVault: verified model

TeamVault is a zero-knowledge secret store. Clients encrypt; the server keeps ciphertexts, one boxed data key
("envelope") per user and secret, and capability markers; clients hold copies that may be out of date. This project
models the parts of it whose correctness spans several functions or whole runs, and proves what they promise.

| area | files |
|---|---|
| Shamir secret sharing over GF(2^8) | `ShiftAndAdd`, `Char2Field`, `GF256`, `Polynomials`, `Shamir`, `ShamirTheorems` |
| envelopes, key versions, capabilities, visibility | `Capability`, `Crypto`, `VaultModel`, `VaultRuns`, `VaultGrants`, `VaultClients`, `VaultContents`, `VaultEffects`, `VaultStore`, `Handlers`, `ClientRequests`, `GroupGaps` |
| login: pending tokens, limiter, TOTP memory, sessions | `PendingLogins`, `RateLimiter`, `LoginModel`, `LoginCodes`, `LoginRuns`, `LoginAnswers`, `LoginConservation`, `Login` |
| worker pool, configuration, paging, versions, HKDF | `WorkerPool`, `ConfigBundle`, `Paging`, `Lexicographic`, `Numerals`, `Versions`, `KeyDerivation` |

Code that works step by step is written as methods with loops, arrays and classes, each proved equal to a
specification function; the theorems are about those functions and about runs of them.

**How the parts fit.** Byte arithmetic is proved to be a field once (`GF256`); everything about polynomials is proved
over any field of characteristic two, so no proof about shares looks inside a byte. A handler is one step function on
one secret (`VaultModel`), and the imperative handler over the store is proved to do exactly that step (`Handlers`);
when a step is accepted and all it changes is stated and proved apart from its definition (`VaultEffects`, and
`LoginAnswers` for logins).
Runs of arbitrary requests keep versions, recipients, visibility and the provenance of capabilities (`VaultRuns`,
`VaultGrants`). Runs of honest clients with stale copies keep secrets openable (`VaultClients`), though not every
update (`VaultContents`), and the client code is proved to send only honest requests (`ClientRequests`, `GroupGaps`).

## Assumptions

- One tenant at a time. A handler is one atomic step; in particular the two writes of an update
  (`internal/server/phase5.go:1282-1288`) are not interleaved with other handlers.
- Sealing and encryption are ideal: a box opens only for its recipient and gives back the key sealed, a ciphertext
  opens only under its key and version. HMAC is any function with a fixed output length.
- Random values (share coefficients, the shuffle, ids, tokens, data keys) and clock readings are parameters. The clock
  never runs backwards where a theorem says so. New secret ids are not in use.
- The server does not check envelope versions on creation; honest clients send none or the matching one, and
  include themselves. `VaultRuns.CreateAlignedIff` says exactly what that buys.
- Transfer encodings are modelled by whether they decode. Store and transport errors do not occur. Text is ASCII.

## Departures found in the code

- The comment on effective capabilities promises the maximum of all grants
  (`internal/server/phase5.go:1084-1085`). The accumulator starts at the empty capability, which already ranks as
  write, so a plain write grant is overlooked and its holder falls back to read.
  `VaultGrants.MaximumOfGrantsIff` gives the exact condition, `VaultGrants.WriteGrantFallsToRead` shows it for
  every first write share, `VaultGrants.WriteGrantInstance` that there is one.
- A copy older than an accepted rotation is not always refused. The handlers compare only the versions a request names;
  an update that leaves the version out is taken for one of the current version
  (`internal/server/phase5.go:1245-1248`), and a share without envelopes names none. Such a request is accepted from
  any copy whose sender is permitted, all others are refused (`VaultRuns.StaleCopyAcceptedIff`). An update of that kind
  sealed under an older key leaves a secret that nobody's envelope opens (`VaultClients.StaleUpdateLocksOut`, an
  instance in `VaultClients.StaleUpdateInstance`). Honest updates always name the version.
- An accepted update need not last: the version rises with rotations only, so a rotation built from a copy older than
  the update is accepted and seals the older contents again. `VaultContents.LastUpdateSurvivesIff` gives the exact
  condition, `VaultContents.StaleRotationReverts` the failing case.
- A group share that is already there may be sent again with a capability, by any envelope holder who ranks at least
  that high; the right to share is not asked for, so a mere reader can lower the whole group to read
  (`internal/server/phase12.go:292-324`, `VaultGrants.GroupLoweredIff`, `VaultGrants.HolderLowersToRead`).
- The gap scan needs the caller's stored envelope to be at least 56 bytes long, which nothing checks when it is
  stored. The scan is exact when the caller's envelopes are whole (`GroupGaps.HandleGroupShareGaps`,
  `GroupGaps.ScanExactWhenAligned`); `GroupGaps.ShortEnvelopeHidesGap` is a gap that no scan lists.
- A catch-up request is refused when a listed member's envelope was revoked at the current version; otherwise it is
  accepted (`GroupGaps.CatchUpAcceptedIff`, an instance in `GroupGaps.RevokedRecipientRefused`). Shares, updates and
  rotations alone never bring that about (`VaultRuns.NeverRefusedAsRevoked`).
- An unknown user name that binds is provisioned under an id made of the first bytes of its directory entry, without
  looking for a stored user of that id (`internal/server/server.go:542-563`,
  `internal/auth/ldapauth/ldapauth.go:38-41`). A stored user with TOTP on is then let in without a code, and a record
  without TOTP is written under that id. `LoginRuns.TotpHonouredIff` gives the exact condition,
  `LoginRuns.FirstBindOverlooksTotp` an instance.
- A login token that offers no choice of the tenant sent with it is passed on to the code step
  (`internal/server/server.go:497-502`), where it cannot succeed (`LoginRuns.NoChoiceFails`): choosing a tenant deletes
  a token that waits for a code (`internal/server/login_pending.go:68-70`, `LoginRuns.CodeTokenSpent`).
- Unsharing several secrets at once seals the new key again for every present holder whose key is listed, the dropped user included
  (`web/static/app.js:7425-7431`): the marker goes, the access stays. `ClientRequests.BatchTakesAccessIff` gives the
  exact condition, `ClientRequests.BatchLeavesAccess` and `ClientRequests.BatchInstance` the failing case.
- Unsharing one secret keeps whom the access lists of the page name, which it does not fetch
  anew (`web/static/app.js:6999`). It leaves envelopes with exactly those whom the remaining markers entitle if and only
  if the lists come to the same keepers as lists of the moment (`ClientRequests.UnshareFairIff`); someone given a
  direct share since keeps the marker and loses the envelope (`ClientRequests.StaleListTakesEnvelope`, an instance in
  `ClientRequests.StaleListInstance`).
- The command line takes the null that stands for an empty list for an older answer format and reports an error
  (`Paging.FetchAllCli`).
- Version comparison takes a hyphen followed by digits for a negative number and digits beyond an int for text;
  the standard does neither. `Versions.VersionPlainIff` gives the exact condition, `Versions.SignedIdentifierDiffers`
  an instance.
- An escrow policy with a threshold above five and fewer shares than that is normalised to five shares
  (`internal/instcfg/instcfg.go:151-156`), which cannot be split. `ConfigBundle.EscrowSplitsIff` gives the exact
  condition, `ConfigBundle.SixOfFourRefused` an instance.
- A refused creation may leave the secret behind with some of its markers: exactly if it was well formed and named a
  user who cannot receive shares (`VaultRuns.RefusedCreationStoresIff`, an instance in
  `VaultRuns.RefusedCreationStores`).

## Model

| member | source | states |
|---|---|---|
| GF256.Mult | internal/shamir/shamir.go:116-126 | the branch-free loop computes the field product |
| GF256.XtimeReduces | internal/shamir/shamir.go:122 | doubling reduces by the modulus 0x11B |
| GF256.MulCommutesAndAssociates | internal/shamir/shamir.go:116-126 | multiplication is commutative and associative |
| GF256.MulDistributes | internal/shamir/shamir.go:116-132 | multiplication distributes over `add` |
| GF256.OneLeft | internal/shamir/shamir.go:116-126 | one is the unit |
| GF256.Inverse | internal/shamir/shamir.go:100-113 | the addition chain is a^254, and a times it is one unless a is zero |
| GF256.Inverts | internal/shamir/shamir.go:100-113 | a^254 is the inverse of every non-zero byte |
| GF256.Div | internal/shamir/shamir.go:85-97 | for a non-zero divisor the quotient times the divisor is the dividend |
| GF256.ByteFieldExists | internal/shamir/shamir.go:84-132 | bytes under these operations are a field of characteristic two |
| Polynomials.HornerIsPowerSum | internal/shamir/shamir.go:52-58 | Horner's rule equals the sum of c_i * x^i |
| Polynomials.RootBound | internal/shamir/shamir.go:45-60 | a polynomial with at most n coefficients and n distinct roots is zero |
| Polynomials.LagrangeAtSample | internal/shamir/shamir.go:64-82 | interpolation takes the given value at each sample |
| Polynomials.Uniqueness | internal/shamir/shamir.go:62-82 | polynomials with at most n coefficients that agree at n distinct points are equal |
| Polynomials.LagrangeExact | internal/shamir/shamir.go:62-82 | interpolating a polynomial with at most n coefficients at n distinct points gives it everywhere |
| Polynomials.ThroughPoints | internal/shamir/shamir.go:62-82 | exactly one polynomial with n coefficients passes through n points with distinct abscissae |
| Shamir.Evaluate | internal/shamir/shamir.go:46-60 | the loop, with the origin as special case, evaluates the polynomial |
| Shamir.NextBasis | internal/shamir/shamir.go:69-77 | one factor of the basis; distinct samples keep the divisor non-zero |
| Shamir.InterpolatePolynomial | internal/shamir/shamir.go:64-82 | the nested loops compute the Lagrange value for distinct samples, without reaching the panic |
| Shamir.Coefficients | internal/shamir/shamir.go:28-43 | degree + 1 coefficients with the intercept first |
| Shamir.TagRows | internal/shamir/shamir.go:164-168 | every share gets room for the secret and its tag at the end |
| Shamir.FillColumn | internal/shamir/shamir.go:183-187 | one byte of every share becomes the polynomial's value at its tag |
| Shamir.Split | internal/shamir/shamir.go:139-192 | the shares, or which check fails first |
| Shamir.CollectTags | internal/shamir/shamir.go:216-230 | the tags in order, or that one repeats |
| Shamir.InterpolateAll | internal/shamir/shamir.go:232-244 | every byte of the result is the interpolation of its column at the origin |
| Shamir.Combine | internal/shamir/shamir.go:196-246 | the interpolated secret, or which check fails first |
| ShamirTheorems.Reconstruction | internal/shamir/shamir.go:139-246 | any list, in any order, of at least threshold shares of one split combines to exactly the secret, unless a share is repeated, which is refused |
| ShamirTheorems.CombineAnswers | internal/shamir/shamir.go:196-246 | combining succeeds exactly for two or more parts of one length of at least two with pairwise different last bytes, with one byte less than a part; each failure has its own cause |
| ShamirTheorems.CombineIsIntercept | internal/shamir/shamir.go:232-244 | whatever the parts, each byte of a success is the intercept of the one polynomial through the points they stand for |
| ShamirTheorems.SplitAnswers | internal/shamir/shamir.go:139-192 | splitting succeeds exactly for a non-empty secret and 2 <= threshold <= parts <= 255, with that many shares on polynomials of that many coefficients at different tags; each failure has its own cause |
| ShamirTheorems.ExactlyOnePolynomial | internal/shamir/shamir.go:28-60 | through any k points off the origin there is, for every intercept, exactly one polynomial with k + 1 coefficients |
| ShamirTheorems.Secrecy | internal/shamir/shamir.go:157-188 | for threshold - 1 shares and any other secret of that length exactly one choice of coefficients gives the same shares |
| ShamirTheorems.FewerSharesSayNothing | internal/shamir/shamir.go:157-188 | any set of shares below the threshold is consistent with every secret of that length |
| Capability.NormalizeIdempotent | internal/store/store.go:188-201 | normalising twice changes nothing and keeps the rank |
| Capability.MeansWriteUnless | internal/store/store.go:188-201 | everything but the other three words, in any case and with blanks around, means write |
| Capability.RankDetermines | internal/store/store.go:204-222 | two capabilities rank alike exactly when they normalise alike |
| Capability.ParseFaithful | internal/store/store.go:188-222 | emptiness, normal form and rank of a capability string survive parsing |
| VaultModel.NoRefusal | internal/server/phase12.go:352-378 | an envelope list that is not refused has only well-formed, admissible envelopes |
| VaultRuns.PutAllWrites | internal/store/store.go:302-318 | a batch of envelope writes succeeds exactly when no target row is revoked, and then changes exactly the named rows |
| VaultRuns.StepVersions | internal/server/phase5.go:1137-1412 | from any state an accepted step names no version but the current one, or raises it if a rotation; the owner stays |
| VaultRuns.StepRows | internal/server/phase5.go:1359-1392 | envelope versions stay aligned, and after a rotation the holders are exactly its recipients |
| VaultRuns.RunMonotone | internal/server/phase5.go:1137-1412 | over any run from any state the key version never falls |
| VaultRuns.RotationVersionsDiffer | internal/server/phase5.go:1327-1330 | no two accepted rotations of a run share a version |
| VaultRuns.StaleCopyAcceptedIff | internal/server/phase5.go:1183-1248 | after an accepted rotation a request from an older copy is accepted exactly if it names no version and its sender is permitted; in particular every request that names one is refused |
| VaultRuns.OnlyNamedGain | internal/server/phase5.go:1137-1412 | from any state a step gives an envelope only to users it names |
| VaultRuns.DroppedStaysOut | internal/server/phase5.go:1359-1392 | whoever a rotation of aligned versions leaves out stays out until a later accepted step names them |
| VaultRuns.NeverRefusedAsRevoked | internal/store/store.go:302-318 | over every run from aligned versions with none revoked at the current one, none ever is, and no request is refused for a revoked envelope |
| VaultRuns.VisibilityOverRuns | internal/server/phase5.go:62-88 | over any run a secret with a marker is stored as shared, and after a rotation it is shared exactly if a marker remains |
| VaultRuns.CreateMarks | internal/server/phase5.go:686-773 | a creation leaves a secret owned by the caller with its markers visible; a complete one marks exactly the named users and groups |
| VaultRuns.CreateAlignedIff | internal/server/phase5.go:718-742 | a creation starts with aligned versions exactly if every envelope carries none or the matching one; it gives envelopes exactly to those it lists, none revoked |
| VaultRuns.RefusedCreationStoresIff | internal/server/phase5.go:664-775 | a refused creation leaves its secret stored exactly if it was well formed and a user it named cannot receive shares |
| VaultRuns.RefusedCreationStores | internal/server/phase5.go:743-760 | a creation shared with an unknown user: refused, and stored as shared |
| VaultEffects.ShareEffect | internal/server/phase5.go:1137-1212 | when a share is accepted, exactly; then everyone named holds the last envelope sent for them, everyone but the caller the capability, and nothing else changes |
| VaultEffects.ShareRefused | internal/server/phase5.go:1137-1200 | why a share is refused, the first bad envelope deciding |
| VaultEffects.ShareGroupEffect | internal/server/phase12.go:271-406 | when a group share is accepted, exactly; then everyone named holds the last envelope sent for them, the group the capability, and nothing else changes |
| VaultEffects.FirstGroupShare | internal/server/phase12.go:290-324 | a group shared with for the first time gets the capability named, or write, from someone with the right to share and that rank |
| VaultEffects.ShareGroupRefused | internal/server/phase12.go:281-378 | why a group share is refused |
| VaultEffects.UpdateEffect | internal/server/phase5.go:1222-1300 | when an update is accepted, exactly, and why not; then title and payload are those sent, and nothing else changes |
| VaultEffects.RotateEffect | internal/server/phase5.go:1302-1412 | when a rotation is accepted, exactly; then contents and version are those sent, the old version is revoked, recipients hold the last envelope sent for them, and exactly the dropped markers are gone |
| VaultEffects.RotateRefused | internal/server/phase5.go:1302-1392 | why a rotation is refused |
| VaultEffects.CreateAnswers | internal/server/phase5.go:664-775 | when a creation stores a secret and when it is refused, exactly, and why |
| VaultEffects.CreateEffect | internal/server/phase5.go:712-775 | a secret that a creation leaves holds title, payload and envelopes as sent, and the capability asked for on exactly the users named before anyone unreachable and, without such a one, the groups named |
| VaultGrants.MarkersChangeByWriting | internal/server/phase5.go:743-773 | a marker present after a step was there before or the step wrote it |
| VaultGrants.WriterOutranks | internal/server/phase12.go:292-324 | whoever writes a marker ranks at least as high, or repeats the capability it had |
| VaultGrants.EveryMarkerFromOwner | internal/server/phase5.go:1137-1161 | over every run each marker goes back to the owner through standing grants of no lower rank, or was there from the start |
| VaultGrants.WhoLowers | internal/server/phase12.go:292-324 | markers go only by rotation with admin; a user's is lowered only by sharing with the right to share, a group's also by any envelope holder who names a capability not above their own |
| VaultGrants.GroupLoweredIff | internal/server/phase12.go:292-324 | a standing group marker can be lowered to a capability by exactly the envelope holders who rank at least that high |
| VaultGrants.HolderLowersToRead | internal/server/phase12.go:292-324 | any envelope holder can lower any group's marker to read |
| VaultGrants.MaximumOfGrantsIff | internal/server/phase5.go:1084-1117 | the effective capability is the maximum of all grants exactly when the best is above write, or there is no write grant and read comes with an envelope or not at all; otherwise it is read with an envelope and nothing without |
| VaultGrants.ChecksByRank | internal/server/phase5.go:1119-1122 | the checks compare ranks, and someone without any grant counts as write for what they may give |
| VaultGrants.WriteGrantFallsToRead | internal/server/phase5.go:1090-1117 | whenever the owner of an openable secret without markers shares it for writing, the share is accepted and the new user, envelope and all, counts as a reader whose updates are all refused |
| VaultGrants.WriteGrantInstance | internal/server/phase5.go:1090-1117 | there are such a secret and user |
| VaultClients.OpenableMeans | internal/cryptocore/cryptocore.go:195-294 | in an openable secret every live envelope opens to a key that decrypts title and payload at the stored version |
| VaultClients.HonestStep | internal/server/phase5.go:1137-1392 | an accepted request built from a copy the present state follows keeps the secret openable |
| VaultClients.OpenableThroughout | internal/server/phase5.go:1137-1392 | over every run of honest clients with stale copies the secret is openable after every step, and states of one version share their data key |
| VaultClients.CreateOpenable | internal/server/phase5.go:664-742 | an honest creation leaves an openable secret owned by its creator |
| VaultClients.AlwaysOpenable | internal/server/phase5.go:664-1392 | whatever honest clients do, the owner keeps an envelope and every live envelope opens title and payload |
| VaultClients.UpdateOpenableIff | internal/server/phase5.go:1222-1300 | an accepted update leaves an openable secret openable exactly if both ciphertexts are sealed with the key and version in force |
| VaultClients.StaleUpdateLocksOut | internal/server/phase5.go:1245-1248 | an update without a version, built by the owner from an older copy, is always accepted, and then no envelope opens the payload |
| VaultClients.StaleUpdateInstance | internal/server/phase5.go:1245-1248 | a secret, a rotation and such an update |
| VaultContents.RotationCopies | internal/cryptocore/cryptocore.go:297-317 | an accepted honest rotation seals what its copy held, and its copy was of the version in force |
| VaultContents.RotatedContents | internal/server/phase5.go:1327-1330 | after an accepted rotation the contents stay until the next accepted update, however often the secret is rotated |
| VaultContents.LastUpdateSurvivesIff | internal/server/phase5.go:1222-1412 | over every run of honest clients with stale copies, what the last accepted update wrote is there in the end exactly if the first accepted rotation after it was not built from an older copy that held something else |
| VaultContents.StaleRotationReverts | internal/server/phase5.go:1302-1412 | whenever the owner updates an openable secret and rotates from the copy held before, both are accepted and the update is gone |
| VaultStore.Store.ListKeyEnvelopes | internal/store/store.go:305 | exactly the envelopes that are not revoked |
| VaultStore.Store.ListKeyEnvelopesByTenant | internal/store/store.go:306-307 | the same for all secrets |
| VaultStore.Store.ListSecretGroupSharesByTenant | internal/store/store.go:330 | every group marker, each once |
| VaultStore.Store.RotateSecret | internal/store/store.go:311-312 | revokes the old version and writes contents and envelopes, or nothing |
| VaultStore.Store.CreateSecret | internal/store/store.go:313-314 | writes contents and envelopes, or nothing |
| VaultStore.Store.ShareSecret | internal/store/store.go:315-316 | writes envelopes and direct markers, or nothing |
| VaultStore.Store.ShareSecretGroup | internal/store/store.go:317-318 | writes envelopes and the group marker, or nothing |
| Handlers.Api.CallerHasEnvelope | internal/server/phase5.go:1063-1074 | whether a live envelope of the caller exists |
| Handlers.BestIsGranted | internal/server/phase5.go:1090-1108 | the accumulator over listed markers depends only on whether share or admin is granted |
| Handlers.Api.CallerEffectiveCapability | internal/server/phase5.go:1086-1117 | the effective capability, whatever order markers are listed in |
| Handlers.Api.RequireSecretCap | internal/server/phase5.go:1119-1122 | whether the effective capability suffices |
| Handlers.Api.SyncSecretVisibility | internal/server/phase5.go:62-88 | shared exactly if forced or a marker exists, nothing else changes |
| Handlers.Api.HandleShareSecret | internal/server/phase5.go:1137-1212 | the state and answer of the share step |
| Handlers.Api.CollectGroupEnvelopes | internal/server/phase12.go:325-378 | the first refusal among the envelopes, or the rows to write |
| Handlers.Api.HandleShareGroup | internal/server/phase12.go:271-406 | the state and answer of the group-share step |
| Handlers.Api.HandleUpdateSecret | internal/server/phase5.go:1222-1300 | the state and answer of the update step |
| Handlers.Api.ResolveVisibility | internal/server/phase5.go:686-711 | shared exactly when someone other than the creator is named; asking for shared without that is refused |
| Handlers.Api.CollectCreationEnvelopes | internal/server/phase5.go:718-733 | the rows of a creation, or that an envelope is malformed |
| Handlers.Api.HandleCreateSecret | internal/server/phase5.go:664-775 | the state and answer of the create step, including what a refusal leaves behind |
| Handlers.Api.CollectRotationEnvelopes | internal/server/phase5.go:1359-1374 | the rows of a rotation and whether the owner is among them |
| Handlers.Api.HandleRotateSecret | internal/server/phase5.go:1302-1412 | the state and answer of the rotate step |
| ClientRequests.AppendShareEnvelope | cmd/tvcli/main.go:908-922 | users without id or key, or already seen, are passed over; everyone else gets one envelope |
| ClientRequests.SealForChosen | web/static/app.js:5671-5700 | one envelope each for exactly the creator, the chosen users and the members of the chosen groups |
| ClientRequests.ResolveUsers | cmd/tvcli/main.go:953-967 | the users named but the creator, exactly if all of them have a key |
| ClientRequests.BuildShareEnvelopes | cmd/tvcli/main.go:924-990 | one envelope each for exactly the creator, the users named and the members of the groups named, or an error exactly if a user named has no key |
| ClientRequests.NamedCirclesAre | cmd/tvcli/main.go:969-974 | the groups whose id is not blank, trimmed |
| ClientRequests.SecretsCreate | cmd/tvcli/main.go:669-745 | an honest creation of that title and payload for exactly those recipients, naming exactly those users and groups; nothing is sent exactly if a user named has no key or sharing was asked for with nobody |
| ClientRequests.PostEncryptedSecret | web/static/app.js:5659-5724 | an honest creation of that title and payload for exactly the creator and those chosen, naming the users other than the creator and the groups, with the capability chosen; sharing with nobody else is refused |
| ClientRequests.ShareWithUsers | web/static/app.js:6928-6950 | an honest share with exactly those users and the capability chosen, sent exactly if the caller's envelope opens |
| ClientRequests.ShareWithGroup | web/static/app.js:6952-6992 | an honest share with that group for exactly those members and the capability chosen, sent exactly if there are members and the caller's envelope opens |
| ClientRequests.UpdateSecretPayload | web/static/app.js:4671-4706 | an honest update whose payload is the edited plaintext under the same key and version, sent exactly if the payload opens and the edit changes it |
| ClientRequests.RotateSecret | internal/cryptocore/cryptocore.go:297-317 | the ciphertext decrypts to the plaintext at the new version, and every recipient's envelope opens to its key |
| ClientRequests.BuildRotation | web/static/app.js:7013-7059 | an honest rotation of the copy's own title and payload one version on for the users kept, built exactly if the copy opens and all of them are keyed |
| ClientRequests.KeepDirects | web/static/app.js:7003-7006 | adds exactly the direct shares that are not dropped |
| ClientRequests.KeepMembers | web/static/app.js:7007-7012 | adds exactly the members of the remaining groups who can receive shares |
| ClientRequests.CollectKeepers | web/static/app.js:7000-7012 | collects exactly the owner, the caller, the remaining direct shares and the remaining groups' members |
| ClientRequests.PublicKeys | internal/server/phase5.go:589-616 | lists only users who can receive shares, and all of them up to a thousand users |
| ClientRequests.FetchAccess | web/static/app.js:6999 | the owner and exactly the users and groups with markers |
| ClientRequests.SendRotation | web/static/app.js:7013-7056 | goes through exactly if the copy opens, all kept are keyed, the stored version is not past the copy's, the caller holds an envelope and admin, the owner is kept and nobody kept is revoked at the new version |
| ClientRequests.GoesWhenAligned | web/static/app.js:6994-7056 | with aligned versions and the owner kept the last two never stand in the way |
| ClientRequests.UnshareSecret | web/static/app.js:6994-7059 | succeeds exactly if something is to be dropped and the rotation for the keepers of the access lists goes through; then exactly they hold envelopes and the dropped markers are gone, otherwise nothing changes |
| ClientRequests.UnshareFairIff | web/static/app.js:6994-7059 | envelopes are left with exactly those whom the remaining markers entitle, and the caller, if and only if the keepers are those of lists of the moment |
| ClientRequests.ByName | web/static/app.js:7416 | every listed user's lower-case name leads to a listed user of that name |
| ClientRequests.StaleListTakesEnvelope | web/static/app.js:6999-7012 | whenever the lists lack a user's direct share, unsharing by the owner is accepted and takes that user's envelope, though the marker stays |
| ClientRequests.StaleListInstance | web/static/app.js:6999 | lists that lack a share given since |
| ClientRequests.KeepRecipients | web/static/app.js:7425-7431 | adds exactly the users whom present holders are taken for |
| ClientRequests.ResolveFinds | web/static/app.js:7425-7431 | a recipient is taken for the listed user of that id, else for one of that name in any case, and for nobody exactly if there is neither |
| ClientRequests.UnshareSecretByTarget | web/static/app.js:7411-7489 | succeeds exactly if the target is shared with and the rotation goes through; then the one marker goes and envelopes are left with the keepers and everyone a present holder is taken for |
| ClientRequests.BatchTakesAccessIff | web/static/app.js:7411-7489 | a user kept by nothing else is left with an envelope exactly if a present holder is taken for them, and a present holder exactly if their key is listed |
| ClientRequests.BatchLeavesAccess | web/static/app.js:7425-7431 | whenever the owner drops a holder whose key is listed it is accepted, the marker goes and the envelope stays |
| ClientRequests.BatchInstance | web/static/app.js:7425-7431 | so it happens to a user whom only the dropped marker entitles |
| GroupGaps.IndexBySecret | internal/server/phase12.go:176-180 | the envelopes of each secret, none lost or misplaced |
| GroupGaps.Holders | internal/server/phase12.go:209-217 | who holds an envelope of the secret, and one of the caller's own |
| GroupGaps.MembersLacking | internal/server/phase12.go:240-266 | exactly the selected members who lack an envelope and can receive one, with a user cache that stays right |
| GroupGaps.ScanShare | internal/server/phase12.go:204-267 | one marker scanned: what the caller's envelopes allow to be listed, with caches that stay right |
| GroupGaps.ScanShares | internal/server/phase12.go:204-267 | with members and users cached the scan finds what it must over every marker |
| GroupGaps.HandleGroupShareGaps | internal/server/phase12.go:150-269 | lists no triple twice, only closable gaps, and every gap whose caller's envelopes are whole; each item carries the caller's own envelope and the secret's version; from aligned versions the scan is exact |
| GroupGaps.ScanExactWhenAligned | internal/server/phase12.go:204-267 | with aligned versions a triple is listed exactly if it is selected, a gap, and the caller has a whole envelope |
| GroupGaps.ShortEnvelopeHidesGap | internal/server/phase12.go:210-220 | a secret that its creator sealed with a short envelope has a gap that no scan lists |
| GroupGaps.GroupByPlace | web/static/app.js:5001-5007 | the gaps by secret and group, none lost, no place twice |
| GroupGaps.SealPlace | web/static/app.js:5008-5028 | sends a request that is honest for the secret as it was when the gaps were listed; the state and answer are those of the group-share step |
| GroupGaps.CatchUpAcceptedIff | internal/server/phase12.go:292-390 | a catch-up request is accepted exactly if no named member's envelope is revoked at the current version |
| GroupGaps.CatchUpAcceptedWhenIntact | internal/server/phase12.go:292-390 | where no envelope of the current version is revoked, which runs preserve, every catch-up is accepted |
| GroupGaps.RevokedRecipientRefused | internal/server/phase12.go:292-390 | a gap that the scan lists and whose catch-up is refused |
| GroupGaps.CatchUpEffect | internal/server/phase12.go:299-315 | an accepted catch-up gives every named member an envelope and leaves every capability the same up to normal form |
| GroupGaps.SealGroupShareGaps | web/static/app.js:4980-5031 | if nothing failed or was skipped all listed members have envelopes; if nothing stands in the way nothing fails |
| GroupGaps.CatchUp | web/static/app.js:4980-5031 | after catch-up requests that all succeed, with no other step in between, the next scan is empty |
| GroupGaps.CatchUpIsHonest | web/static/app.js:5008-5024 | a catch-up built from an opened copy is an honest request |
| PendingLogins.Store.Issue | internal/server/login_pending.go:38-50 | prunes, then stores the account until five minutes later |
| PendingLogins.Store.IssueSelection | internal/server/login_pending.go:52-61 | prunes, then stores the candidates until five minutes later |
| PendingLogins.Store.ConsumeSelection | internal/server/login_pending.go:63-79 | the first candidate with the slug; a miss, an expired token or one without candidates is deleted, a wrong slug leaves it |
| PendingLogins.Store.Consume | internal/server/login_pending.go:81-92 | the pending login, once; the token is gone either way |
| PendingLogins.Store.PruneLocked | internal/server/login_pending.go:94-100 | removes exactly the expired tokens |
| PendingLogins.PruningInvisible | internal/server/login_pending.go:94-100 | with a monotone clock every call of a run is answered as by a map that never prunes |
| PendingLogins.SuccessAnswersIssue | internal/server/login_pending.go:63-92 | a success answers for one issue, not after its expiry, with its account or one of its candidates |
| PendingLogins.SucceedsIff | internal/server/login_pending.go:38-92 | with a monotone clock a call succeeds exactly if its token was issued no more than five minutes ago, is unanswered, was not spent on a choice it does not offer, and fits the call |
| PendingLogins.ConsumedAtMostOnce | internal/server/login_pending.go:63-92 | between two successes on one token it was issued again |
| RateLimiter.Compact | internal/server/mvp_gaps.go:365-371 | compaction in place keeps exactly the recent hits, in order |
| RateLimiter.Buckets.Take | internal/server/mvp_gaps.go:360-393 | the new hits and the decision of the limiter step |
| RateLimiter.Buckets.Sweep | internal/server/mvp_gaps.go:378-391 | drops exactly the keys without recent hits |
| RateLimiter.DecidesLikeLog | internal/server/mvp_gaps.go:364-391 | with a monotone clock every decision is that of a log that keeps every accepted hit |
| RateLimiter.RefusedIffFull | internal/server/mvp_gaps.go:372-375 | a call is refused exactly when that many accepted calls on its key lie in its window |
| RateLimiter.AtMostMax | internal/server/mvp_gaps.go:360-393 | no interval (t - window, t] holds more accepted calls on a key than its maximum |
| LoginModel.CandidatesAre | internal/server/server.go:599-614 | the candidates of a tenantless login are exactly the enabled stored users of open tenants listed who authenticated |
| LoginCodes.DigitsAre | internal/server/server.go:661-669 | normalising keeps the digits in order and drops the rest |
| LoginCodes.LoginBacked | internal/server/server.go:479-739 | the TOTP memory moves only by a code valid for the stored secret of one account, to exactly its step, and only that account gets a session then |
| Login.Api.ValidateCode | internal/server/server.go:693-706 | accepts a time step only beyond the last one accepted for the user |
| Login.Api.NormalizeTOTPCode | internal/server/server.go:661-669 | the digits of the trimmed code |
| Login.Api.GateTOTPOrIssueToken | internal/server/server.go:671-691 | open without TOTP or with a new code, otherwise a token or a refusal |
| Login.Api.WriteLoginSuccess | internal/server/server.go:741-759 | mints exactly one session for the account |
| Login.Api.HandleLoginTOTPStep | internal/server/server.go:708-739 | the state and reply of the token-and-code step |
| Login.Api.HandleTenantChoice | internal/server/server.go:497-514 | the state and reply of choosing a tenant |
| Login.Api.MatchTenants | internal/server/server.go:599-614 | the candidates in listing order |
| Login.Api.HandleTenantlessLogin | internal/server/server.go:593-642 | the state and reply without a tenant slug |
| Login.Api.HandleSlugLogin | internal/server/server.go:528-590 | the state and reply with a tenant slug, including provisioning on a first bind |
| Login.Api.HandleLogin | internal/server/server.go:479-591 | the state and reply of a login request |
| Login.Api.HandleWALoginFinish | internal/server/phase7.go:199-282 | the state and reply of a passkey login |
| LoginRuns.TotpStepProper | internal/server/server.go:708-739 | the second request mints only for a vouched-for account, with a new time step exactly if its stored user has TOTP on |
| LoginRuns.NoChoiceFails | internal/server/server.go:497-502 | a token that offers no choice of the tenant sent gets no session, whatever the code |
| LoginRuns.CodeTokenSpent | internal/server/login_pending.go:63-71 | a token that waits for a code is gone after a request that sends a tenant along |
| LoginRuns.AcceptedIffPassed | internal/server/server.go:479-691 | a first factor is accepted for some account exactly when the handler lets the request past it |
| LoginRuns.StepProper | internal/server/server.go:479-739 | every request keeps tokens vouched for and TOTP memory rising, and mints only for a vouched-for account, with a new time step exactly if due |
| LoginRuns.CountersRise | internal/server/server.go:693-706 | over any run the accepted time step of a user never falls |
| LoginRuns.Provenance | internal/server/server.go:479-739 | every session minted is preceded by an accepted first factor for the same tenant and user; its own request had a time step accepted, beyond all accepted before, exactly if the stored user has TOTP on and is not overlooked, and then by a code valid for the stored secret at exactly that step |
| LoginRuns.WrongCodeStops | internal/server/server.go:693-706 | a code valid for no stored secret moves no time step and lets in nobody who owes one |
| LoginRuns.OverlookedIs | internal/server/server.go:542-563 | whoever a first bind to a stored id lets in has TOTP on in the store, no time step is looked at, and a record without TOTP goes to the store |
| LoginRuns.TotpHonouredIff | internal/server/server.go:479-739 | a login that succeeds honours the TOTP of its stored user exactly if no unknown user name is bound to such a user's id |
| LoginRuns.FirstBindOverlooksTotp | internal/server/server.go:542-563 | a stored user with TOTP on is let in under an unknown name, without a code |
| LoginRuns.EverySessionMinted | internal/server/server.go:741-748 | every session of a run was minted by one of its requests |
| LoginAnswers.SlugAnswers | internal/server/server.go:528-590 | an accepted first factor in a tenant is answered by the gate of that account: a session, remembered as asked, exactly if its code is good, else a token or a refusal |
| LoginAnswers.WithSlugRefused | internal/server/server.go:528-586 | why such a request is turned away |
| LoginAnswers.PasskeyAnswers | internal/server/phase7.go:199-282 | the same for a passkey |
| LoginAnswers.TenantlessAnswers | internal/server/server.go:593-642 | nobody offered: refused; one: their gate decides; more: a token with which each of their tenants, in listing order, may be chosen |
| LoginAnswers.TokenAnswers | internal/server/server.go:708-739 | a token alone lets in exactly the account it waits for, while live and enabled, with a valid code at a new time step |
| LoginAnswers.ChoiceAnswers | internal/server/server.go:497-514 | a choice offered with a live token is answered by the gate of the first candidate of that slug, looked up again |
| LoginConservation.SessionsWithinFactors | internal/server/server.go:479-739 | at every point sessions and outstanding tokens together are at most the first factors that requests had accepted so far |
| WorkerPool.ClaimedExactlyOnce | web/static/app.js:642-646 | in every interleaving the indices handed out are 0, 1, 2, ... |
| WorkerPool.InFlightBounded | web/static/app.js:648-649 | never more than `concurrency` calls are in flight |
| WorkerPool.Terminates | web/static/app.js:639-651 | every schedule ends: turns taken, workers left and items left add up to a constant |
| WorkerPool.NeverStuck | web/static/app.js:642-647 | a turn is possible exactly until every worker is over |
| WorkerPool.Complete | web/static/app.js:639-651 | when no call throws and all workers are over, results[i] is fn(items[i], i) for all i exactly if there was a worker or nothing to do |
| ConfigBundle.MigrateCompanyCA | internal/instcfg/instcfg.go:191-213 | the first certificate that is not blank becomes the instance's, all others are cleared |
| ConfigBundle.ClearCAs | internal/instcfg/instcfg.go:210-212 | every connection keeps all but its certificate |
| ConfigBundle.CertificateLifted | internal/instcfg/instcfg.go:191-213 | the certificate after loading is the instance's own if not blank, else the first elsewhere that is not, trimmed |
| ConfigBundle.SettingsStay | internal/instcfg/instcfg.go:135-213 | everything else is as stored, or the default where absent |
| ConfigBundle.NormalFields | internal/instcfg/instcfg.go:144-156 | field by field, numbers that make no sense are replaced and nothing else is touched |
| ConfigBundle.DefaultsAreNormal | internal/instcfg/instcfg.go:135-156 | a policy left out normalises to the default one |
| ConfigBundle.Load | internal/instcfg/instcfg.go:135-165 | the normal form of what is stored, or the defaults |
| ConfigBundle.EscrowSplitsIff | internal/instcfg/instcfg.go:151-156 | a secret can be split as the normalised policy says exactly if at most 255 shares were asked for and, above a threshold of five, at least the threshold |
| ConfigBundle.SixOfFourRefused | internal/instcfg/instcfg.go:151-156 | six of four becomes six of five, which is refused |
| ConfigBundle.LoadStable | internal/instcfg/instcfg.go:135-174 | loading what was saved from a load gives the same again |
| ConfigBundle.Config.SaveBundle | internal/server/phase6.go:74-79 | stores the draft with the stored policy |
| ConfigBundle.Config.SavePolicy | internal/server/phase6.go:81-96 | stores the policy, open fields filled from the stored one, or nothing if its requirement is unknown |
| ConfigBundle.PolicySaveFields | internal/server/phase6.go:81-96 | open fields keep what is stored, all others are those saved; refused exactly for a requirement that is none of the four words |
| ConfigBundle.PolicyIsLastSaved | internal/server/phase6.go:68-96 | in every interleaving the stored policy reads as the one the last policy save left |
| ConfigBundle.PolicySaveLeavesRest | internal/server/phase6.go:81-96 | a policy save leaves every other section as it reads |
| ConfigBundle.SaveWins | internal/server/phase6.go:74-79 | a save makes all but the policy read as the saver's draft |
| ConfigBundle.UntouchedDraftHarmless | internal/server/phase6.go:68-79 | saving a draft just as it was read changes nothing |
| Paging.ParseLimitOffset | internal/server/phase12.go:23-39 | acceptable numbers replace the defaults, and the limit is at most 500 |
| Paging.LimitAsAsked | internal/server/phase12.go:23-39 | a number written out is the limit up to 500, and the offset; zero and negative limits leave the default |
| Paging.HandleListSecrets | internal/server/phase5.go:885-896 | the slice asked for, clamped to the list, with the total |
| Paging.FetchAllExtension | clients/extension/popup.js:571-580 | the loop ends with exactly the list, in order |
| Paging.FetchAllCli | cmd/tvcli/main.go:404-429 | the loop ends with exactly the list, in order, and with an error for the empty list |
| Paging.Vault.RefreshSecrets | web/static/app.js:6328-6362 | loads a prefix: after a preserving reset at least the target or everything, and less than a page more |
| Numerals.AtoiItoa | internal/server/phase12.go:26 | a number that fits an int survives being written into a query |
| Lexicographic.LexTransitive | internal/versioncheck/versioncheck.go:87-117 | lexicographic comparison by a total preorder is transitive |
| Lexicographic.LexDecides | internal/versioncheck/versioncheck.go:87-117 | the loop's comparison is the order by first difference |
| Versions.Parse | internal/versioncheck/versioncheck.go:42-73 | core numbers padded with zeros and the pre-release, or no version |
| Versions.ParsesRendered | internal/versioncheck/versioncheck.go:42-73 | version text as it is written reads back as its numbers, padded, and its pre-release; more than three numbers or one beyond an int make no version |
| Versions.ComparePre | internal/versioncheck/versioncheck.go:75-119 | the loop compares identifier lists lexicographically, no pre-release last |
| Versions.Compare | internal/versioncheck/versioncheck.go:17-35 | core first, then pre-release; nothing if either text is no version |
| Versions.CompareIsOrder | internal/versioncheck/versioncheck.go:17-119 | comparison is reflexive, antisymmetric in sign and transitive on all versions |
| Versions.AgreesWithStandard | internal/versioncheck/versioncheck.go:75-119 | where every identifier is plain, less means precedence in section 11 of Semantic Versioning 2.0.0 |
| Versions.PlainIff | internal/versioncheck/versioncheck.go:94-110 | an identifier compares as the standard says with every plain one exactly if it is plain |
| Versions.VersionPlainIff | internal/versioncheck/versioncheck.go:75-119 | a version compares as the standard says with every version of plain identifiers exactly if its own are plain |
| Versions.UpToSplits | internal/versioncheck/versioncheck.go:85-95 | cutting a pre-release at an identifier and putting another there splits into exactly those identifiers |
| Versions.SignedIdentifierDiffers | internal/versioncheck/versioncheck.go:94-104 | 1.0.0--1 comes before 1.0.0-0, against the standard |
| KeyDerivation.HkdfExpand | internal/configstore/configstore.go:94-107 | the loop yields exactly `length` octets of the block stream |
| KeyDerivation.HkdfSHA256 | internal/configstore/configstore.go:77-86 | an error exactly beyond 255 blocks; otherwise `length` octets of T(1), T(2), ... of section 2.3 of RFC 5869 |
| KeyDerivation.CounterNeverWrapsIff | internal/configstore/configstore.go:98-102 | the counter octet is the block number for every block exactly up to 255 blocks |
| KeyDerivation.FollowsStandard | internal/configstore/configstore.go:94-107 | up to 255 blocks the output is a prefix of T(1), T(2), ... |
| KeyDerivation.ShorterIsPrefix | internal/configstore/configstore.go:106 | a shorter output is a prefix of a longer one |

## Left out

- HTTP, JSON, cookies, audit events, mail, rendering and the store's own bodies: input and output.
- Argon2, AES-GCM, NaCl box, HMAC and SHA-256 themselves: ideal functions or parameters stand for them.
- Key versions are unbounded; the 32-bit width, at which a client could no longer rotate, is not modelled.
- Removing a group member with revocation, deleting a group or a secret, and importing a snapshot: what they do to
  envelopes is not visible in the store contract. Envelopes revoked that way appear only as possible earlier states.
- Crash atomicity and store failures, including a handler's later writes failing after its first.
- Timing behaviour and the quality of random numbers.
- Shamir.Split: takes the shuffle as any permutation of 0 to 254 already narrowed to bytes, because the source
  narrows each entry only where it uses it.
- Handlers.Api.HandleUpdateSecret: does not show the state between its two writes, because a handler is one step here.
- Login.Api.HandleLogin: reads the clock once per request, because only order matters to the theorems; the token
  store itself is modelled with both of its readings.
- Login.Api.HandleSlugLogin: shows which record goes to the store on a first bind, but not what storing it does to an
  older record of that id, because the store's body is not part of this model.
- Restarts: the saved TOTP memory, and the pending tokens and limiter hits that a restart forgets.
- RateLimiter.Buckets.Take: copies the hits of a key into the buffer it compacts, because the slice shared with the map
  is never read again.
- Paging.Vault.RefreshSecrets: does not model the offline mode or the decryption of titles, which change no entry's place.
- WorkerPool.Complete: says nothing about results after a call throws; the other lemmas cover those schedules too.
- ConfigBundle.Load: groups the fields it never looks at, and takes decoding what was encoded as giving it back.
- ClientRequests.UnshareSecretByTarget: takes the access lists, the keys and the secret as read at one moment.
- GroupGaps.SealGroupShareGaps: does not count the envelopes sealed, and takes confirmed recipient keys as a parameter.
- Offline policy combination, roles, themes, base paths, manifests and downloads: tables and string plumbing.
