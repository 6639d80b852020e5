# VC Knots: a verified model

VC Knots issues, holds and verifies credentials (OpenID4VCI 1.0, OpenID4VP 1.0). What it promises rests
on small protocols over shared stores: a code that can be redeemed once, a nonce that is accepted once, a
proof that cannot be replayed, a key alias that always works. This project models those protocols as the
code runs them and proves what they guarantee over every run and every interleaving.

Run `dafny verify dfyconfig.toml` to check everything.

## How it is modelled

- **Sequential code** is written as the source has it: stores are classes over maps, loops are loops, claim
  trees are heap objects that are changed in place. Each method is proved against a specification function
  or a property, and the theorems are about those specifications.
- **Concurrent code** (cloud code redemption, KMS key creation, nonces) is a step relation with a program
  counter per request. A schedule is a list of steps; theorems hold of every schedule. Fields marked as
  history record the past for the theorems and are never read by a step.
- **Whole runs of the flows** (`IssuanceGuarantees`) serve any requests of any parties one at a time.
- **Time** is an integer number of milliseconds; one request reads the clock once. JWT times are whole
  seconds, and the server's second is the floor of its clock. Clocks do not run backwards in the replay
  and interleaving theorems.
- **Hashes and HMACs** are constructors, hence injective. A signature is a record of who signed what.
  Generated codes, nonces and transaction ids are never generated twice (`FreshIds`).
- **Database and KMS calls** take effect or fail without effect, and a request may die between two calls.
- **The DynamoDB sweeper** may remove an item once its TTL second is strictly past. The repository declares
  no TTL for Firestore; a sweeper with the same rule is allowed there too, which only adds behaviour.

| module | what it covers |
|---|---|
| `TxCodes`, `CodeStore` | tx_code comparison; the atomic in-memory code store |
| `CloudRedemption`, `RedemptionRefinement`, `CloudCodeStore` | the interleaved cloud redemption, its safety, its refinement of the atomic store |
| `KmsKeyStore` | racing key creation and import on one alias |
| `JsStrings`, `JtiStores`, `ReplayProtection` | replay caches; how far they protect DPoP proofs and client assertions |
| `NonceStore` | one-time nonces, one at a time and interleaved |
| `Issuance`, `IssuanceGuarantees`, `IssuanceConditions`, `IssuanceClient` | the flows over shared stores; provenance and single use over whole runs; when each request is answered with success; an honest holder's way to a credential |
| `InterleavedIssuance` | provenance when the store calls of the flows interleave |
| `TokenExchange`, `TokenLifetime` | the DPoP nonce retry; tokens against their configuration entries |
| `ClientIdentity`, `ClientAssertions` | client authentication between wallet and server |
| `AuthenticatedExchange` | the whole token exchange with private_key_jwt and DPoP |
| `Dcql`, `PresentationCheck`, `HeldCredentials`, `QuerySelection`, `PresentationSearch` | answering and checking a presentation request |
| `DerSignatures` | ECDSA signatures from DER to raw |
| `ClaimTrees`, `ClaimProjection`, `ClaimSharing`, `SdJwtPacking` | building credentials from claims |

## Where the code does less than it is meant to

Each of these is a proved statement with an exact condition, not an observation.

- A number saved as tx_code in text mode is matched by the number in memory and by its text in the cloud. A
  text with U+FFFD, or with a surrogate on its own, is matched in the cloud by every text of the same UTF-8
  form. The cloud stores refine the in-memory one for every other saved code, and for none of these
  (`RedemptionRefinement.NeverMorePermissiveExactlyWhen`).
- The cloud stores name a DPoP jti by a digest of its UTF-8 form, so a proof can be refused for a jti nobody
  used: exactly in the cloud, for exactly the jti values another string encodes like
  (`ReplayProtection.FalselyRefusedExactlyWhen`, with `ReplayProtection.UnpairedSurrogatesCollide` as a
  witness). Client assertions are not affected (`JtiStores.BackendsAgreeOnAssertions`).
- Firestore's expiry boundary is closed and the other two are open; that instant is the only disagreement of
  undisturbed calls (`CloudCodeStore.UndisturbedAgreesExactlyWhen`).
- The comment on the DPoP jti cache says a jti is kept while its proof could still pass. It is not when
  the proof's `iat` is ahead of the server's clock: a proof accepted at `t` can be accepted again exactly
  when `t < iat * 1000 + 999` (`ReplayProtection.ReplayableExactlyWhen`).
- The access token is signed after its code is consumed. When exactly the signing fails, the code is spent for
  nothing (`TokenExchange.SigningFailureSpendsTheCode`).
- The credential subject shares objects with the claims source. When claims are read from two places of one
  source, a write into the subject can land in the source: exactly when the first object it changes is one
  of the source's (`ClaimSharing.WriteSparesExactlyWhen`, with `ClaimSharing.TwoPlacesWriteTheSource` as a
  witness).
- Overlapping `validate`/`revoke` pairs, as key proofs and presentations use them, accept a nonce twice exactly
  when the later one asks in time and before anyone removed it (`NonceStore.BothAcceptedExactlyWhen`, with
  `NonceStore.OverlappingPairsBothAccept` as a witness). The atomic `consume` never does
  (`NonceStore.AtMostOneConsume`).
- DynamoDB's `validate` does not ask for a consistent read, as its sibling stores do. One at a time, uses of a
  nonce accept it once in all for exactly the other backends (`NonceStore.SingleUseInTurnExactlyWhen`).
- A token lifetime of one second or more with a fraction loses its configuration entry before the token
  expires (`TokenLifetime.EntryOutlivesTokenExactlyWhen`).
- A DER signature of exactly twice the key size is taken for a raw one, and is then always wrong
  (`DerSignatures.ConversionCorrectExactlyWhen`).
- A wallet client id with blanks around it negotiates well, and then its key proofs are refused
  (`ClientIdentity.ProofIssuerAcceptedExactlyWhen`).
- A client id that is blank to JavaScript but not to Go, such as a byte order mark, is sent by the wallet and
  taken for no client by the server (`ClientIdentity.AnonymousExactlyWhenNoIdSent`, with
  `ClientIdentity.ByteOrderMarkIsAnonymous` as a witness).

## Model

| member | source | states |
|---|---|---|
| `TxCodes.VerdictsAgree` | aws/src/providers/dynamodb-pre-authorized-code-store.provider.ts:108-122 | Hashing a tx_code leaves the set of right guesses unchanged, for exactly the saved codes that in text mode are neither numbers nor texts that another text encodes like. |
| `TxCodes.ImposterMatchesInCloudOnly` | aws/src/providers/hash.utils.ts:8-11 | For every other saved code, a concrete guess that matches in the cloud and not in memory. |
| `TxCodes.NumberInTextMode` | google-cloud/src/providers/firestore-pre-authorized-code-store.provider.ts:62-74 | For every number kept in text mode, that number matches only in memory and the text JavaScript writes for it only in the cloud. |
| `TxCodes.DecimalExactly` | issuer+verifier/src/providers/in-memory/in-memory-pre-authorized-code-store.provider.ts:30-36 | A number's decimal text is the one text of digits that writes that number without a leading zero. |
| `TxCodes.SavableExactlyWhen` | issuer+verifier/src/providers/in-memory/in-memory-pre-authorized-code-store.provider.ts:42-72 | In numeric mode exactly the non-negative safe integers and the non-empty texts of ASCII digits are kept; in text mode everything is. |
| `TxCodes.RightGuessExactly` | issuer+verifier/src/providers/in-memory/in-memory-pre-authorized-code-store.provider.ts:73-138 | Which guess is right: none for a code saved without, the value itself in text mode, and in numeric mode what writes the same digits, as a number or as text. |
| `CodeStore.EffectiveTtl` | issuer+verifier/src/providers/in-memory/in-memory-pre-authorized-code-store.provider.ts:42-72 | A lifetime in use is positive, and is the requested one rounded down when that is at least a second. |
| `CodeStore.InMemoryPreAuthorizedCodeStore.Save` | issuer+verifier/src/providers/in-memory/in-memory-pre-authorized-code-store.provider.ts:42-72 | Stores the canonical entry with no attempts, or refuses a tx_code that is not digits in numeric mode and changes nothing. |
| `CodeStore.InMemoryPreAuthorizedCodeStore.Consume` | issuer+verifier/src/providers/in-memory/in-memory-pre-authorized-code-store.provider.ts:73-138 | One atomic redemption: counts the attempt, then expires, locks, refuses or grants, and touches no other code. |
| `CodeStore.WrongGuessesAreCounted` | issuer+verifier/src/providers/in-memory/in-memory-pre-authorized-code-store.provider.ts:73-138 | After any calls the slot holds the count of wrong in-time guesses, or is gone once there was any other call or the limit was reached. |
| `CodeStore.GrantedExactlyWhen` | issuer+verifier/src/providers/in-memory/in-memory-pre-authorized-code-store.provider.ts:73-138 | In any sequence of calls, call i is granted exactly when it is in time and right, within the limit, and all calls before it were in time and wrong. |
| `CodeStore.GrantedAtMostOnce` | issuer+verifier/src/providers/in-memory/in-memory-pre-authorized-code-store.provider.ts:73-138 | No two calls of a sequence are granted. |
| `CodeStore.OutcomeExactly` | issuer+verifier/src/providers/in-memory/in-memory-pre-authorized-code-store.provider.ts:73-138 | In any sequence of calls, what call i is told: locked once the code is gone, else expired, else granted, else locked at the limit, else what is wrong with the guess. |
| `CloudRedemption.NextKeepsInv` | aws/src/providers/dynamodb-pre-authorized-code-store.provider.ts:132-213 | Every step of every request, of the sweeper and of the clock keeps the protocol invariant. |
| `CloudRedemption.ScheduleKeepsInv` | aws/src/providers/dynamodb-pre-authorized-code-store.provider.ts:132-213 | The invariant holds after every schedule from a fresh save, and the compares made are as many as the requests that compared. |
| `CloudRedemption.AtMostOneGrant` | aws/src/providers/dynamodb-pre-authorized-code-store.provider.ts:132-213 | However many requests interleave, at most one of them is granted a saved code. |
| `CloudRedemption.GrantMatchedSavedCode` | aws/src/providers/dynamodb-pre-authorized-code-store.provider.ts:132-213 | The granted request gave the saved tx_code, got exactly the saved configurations, and the item is gone. |
| `CloudRedemption.ComparesAreBounded` | aws/src/providers/dynamodb-pre-authorized-code-store.provider.ts:132-160 | At most maxTxCodeAttempts guesses are ever compared, whatever arrives at once. |
| `CloudRedemption.SweepOnlyRemovesExpired` | aws/src/providers/dynamodb-pre-authorized-code-store.provider.ts:93-131 | The sweeper never removes a code that a backend would still accept. |
| `RedemptionRefinement.InFlightLeavesRoom` | google-cloud/src/providers/firestore-pre-authorized-code-store.provider.ts:80-181 | While a request is in flight the in-memory replay still has an attempt left for it. |
| `RedemptionRefinement.AtomicAttemptsPlusInFlight` | google-cloud/src/providers/firestore-pre-authorized-code-store.provider.ts:80-181 | Attempts counted by the in-memory replay plus requests in flight never exceed the stored attempts. |
| `RedemptionRefinement.ScheduleSimulates` | google-cloud/src/providers/firestore-pre-authorized-code-store.provider.ts:80-181 | After every schedule, replaying the history against the in-memory store grants whatever was granted. |
| `RedemptionRefinement.NeverMorePermissiveExactlyWhen` | google-cloud/src/providers/firestore-pre-authorized-code-store.provider.ts:80-181 | The cloud protocol refines the in-memory store under all schedules, for exactly the saved codes both compare alike: not numbers in text mode, nor texts that another text encodes like. |
| `RedemptionRefinement.GrantedRequestReplays` | aws/src/providers/dynamodb-pre-authorized-code-store.provider.ts:132-213 | Every granted request is in the replay order once, with its own guess and clock, and the in-memory call there has the same result. |
| `CloudCodeStore.UndisturbedAgreesExactlyWhen` | google-cloud/src/providers/firestore-pre-authorized-code-store.provider.ts:131-181 | An undisturbed cloud redemption returns what the in-memory one returns, except exactly at Firestore's expiry instant. |
| `CloudCodeStore.CloudPreAuthorizedCodeStore.Save` | aws/src/providers/dynamodb-pre-authorized-code-store.provider.ts:93-131 | Stores the hashed entry without attempts, or refuses and changes nothing. |
| `CloudCodeStore.CloudPreAuthorizedCodeStore.Admit` | aws/src/providers/dynamodb-pre-authorized-code-store.provider.ts:132-160 | The gate counts an attempt exactly when the code exists below its limit, and returns the counted item. |
| `CloudCodeStore.CloudPreAuthorizedCodeStore.DeleteCode` | aws/src/providers/dynamodb-pre-authorized-code-store.provider.ts:69-86 | Removes the code and tells whether it still existed. |
| `CloudCodeStore.CloudPreAuthorizedCodeStore.Consume` | aws/src/providers/dynamodb-pre-authorized-code-store.provider.ts:132-213 | The undisturbed sequence of gate, expiry, compare and deletes, with its whole effect on the table. |
| `CloudCodeStore.OwnStepsConsume` | aws/src/providers/dynamodb-pre-authorized-code-store.provider.ts:132-213 | In any state of the interleaved protocol, a new request's own steps with nothing in between leave the item and give the outcome of one undisturbed redemption, and change no other request. |
| `CloudCodeStore.LoserIsTold` | google-cloud/src/providers/firestore-pre-authorized-code-store.provider.ts:155-181 | A request whose right guess comes after another one took the code away is told it was already consumed. |
| `CloudCodeStore.SweepsExactlyWhen` | aws/src/providers/dynamodb-pre-authorized-code-store.provider.ts:93-131 | The sweeper may take the item exactly when its rounded-up TTL second is past, and takes nothing else. |
| `CloudCodeStore.SaveLeavesTheSameCode` | aws/src/providers/dynamodb-pre-authorized-code-store.provider.ts:93-131 | One save leaves the same code, expiry and attempts in the cloud as in memory. |
| `KmsKeyStore.NextKeepsInv` | aws/src/providers/kms-signature-key-store.factory.ts:118-237 | Every KMS call of every concurrent save, failed or not, keeps the alias, the keys and each save's own key in order. |
| `KmsKeyStore.ScheduleKeepsInv` | aws/src/providers/kms-signature-key-store.factory.ts:118-237 | That invariant holds after every schedule of generating and importing saves. |
| `KmsKeyStore.AliasIsReady` | aws/src/providers/kms-signature-key-store.factory.ts:118-237 | The alias only ever points at a key whose material is in place, and no former target is scheduled for deletion. |
| `KmsKeyStore.FinishedCallsLeaveNoOrphan` | aws/src/providers/kms-signature-key-store.factory.ts:90-99 | The key of a finished call is the target, a former target, or scheduled for deletion, unless the deletion call itself failed. |
| `KmsKeyStore.SuccessMeansAlias` | aws/src/providers/kms-signature-key-store.factory.ts:118-237 | A successful save leaves an alias, and a successful import's key was its target. |
| `KmsKeyStore.GenerateOnlyAliasIsStable` | aws/src/providers/kms-signature-key-store.factory.ts:141-177 | When nothing is imported the alias never changes once it is set. |
| `KmsKeyStore.KmsSignatureKeyStore.DiscardOrphanKey` | aws/src/providers/kms-signature-key-store.factory.ts:90-99 | Schedules the key for deletion unless that call fails, which is swallowed. |
| `KmsKeyStore.KmsSignatureKeyStore.Save` | aws/src/providers/kms-signature-key-store.factory.ts:118-237 | One undisturbed save: exactly which failures make it fail, when the alias moves and to what, and that an unaliased key is discarded. |
| `KmsKeyStore.SaveAloneGives` | aws/src/providers/kms-signature-key-store.factory.ts:118-237 | In any state of the race, the steps of a save that is left alone end in exactly what one undisturbed save does to keys and alias, whatever calls fail. |
| `JtiStores.LiveEntriesAgree` | aws/src/providers/dynamodb-dpop-proof-jti-store.provider.ts:41-75 | Under the same keys, the sweeping map and the conditional put hold the same live entries after any operations and any TTL removals. |
| `JtiStores.TableAgrees` | google-cloud/src/providers/firestore-oauth-client-assertion-jti-store.provider.ts:22-48 | Under the same keys, the sweeping map and the conditional put accept and refuse the same uses. |
| `JtiStores.BackendsAgreeExactlyWhen` | aws/src/providers/dynamodb-dpop-proof-jti-store.provider.ts:26-75 | Memory and cloud accept and refuse the same uses in every run over a set of keys, whatever the sweeper does, exactly when no two of those keys have the same UTF-8 form. |
| `JtiStores.SharedEntryRefuses` | google-cloud/src/providers/firestore-dpop-proof-jti-store.provider.ts:8-9 | Two different keys with one UTF-8 form: both are accepted in memory, and the second is refused in the cloud. |
| `JtiStores.BackendsAgreeOnAssertions` | aws/src/providers/dynamodb-oauth-client-assertion-jti-store.provider.ts:28-31 | For client assertions the backends agree without exception, over all JavaScript strings. |
| `JtiStores.BackendsAgreeOnProofsExactlyWhen` | aws/src/providers/dynamodb-dpop-proof-jti-store.provider.ts:27-28 | For the proofs of one DPoP key the backends agree exactly when no two of the jti values have the same UTF-8 form. |
| `JtiStores.DpopEntryExactlyWhen` | aws/src/providers/dynamodb-dpop-proof-jti-store.provider.ts:27-28 | Two proofs share a cloud entry exactly when their thumbprints are equal and their jti values have the same UTF-8 form. |
| `JtiStores.AssertionKeyIsWellFormed` | google-cloud/src/providers/firestore-oauth-client-assertion-jti-store.provider.ts:8-9 | Encoding takes nothing from the JSON pair key, because JSON escapes surrogates on their own. |
| `JtiStores.RefusedInEveryBackend` | aws/src/providers/dynamodb-dpop-proof-jti-store.provider.ts:41-75 | In memory and in the cloud, a use accepted once keeps every use of the same entry refused through the instant it expires. |
| `JtiStores.EntryStays` | issuer+verifier/src/providers/in-memory/in-memory-dpop-proof-jti-store.provider.ts:22-34 | An accepted entry stays, with its expiry, until its expiry instant has passed. |
| `JtiStores.RefusedWhileLive` | issuer+verifier/src/providers/in-memory/in-memory-dpop-proof-jti-store.provider.ts:22-34 | A key accepted once is refused through the instant its entry expires. |
| `JtiStores.DpopKeyIsInjective` | issuer+verifier/src/providers/in-memory/in-memory-dpop-proof-jti-store.provider.ts:8 | The joined key tells thumbprint and jti apart whenever thumbprints have no colon. |
| `JtiStores.DpopKeyNeedsColonFreeThumbprints` | issuer+verifier/src/providers/in-memory/in-memory-dpop-proof-jti-store.provider.ts:8 | Any thumbprint with a colon shares its keys with a shorter, different thumbprint. |
| `JtiStores.ReadStringInvertsEscape` | issuer+verifier/src/providers/in-memory/in-memory-oauth-client-assertion-jti-store.provider.ts:9 | What JSON writes for a JavaScript string, surrogates on their own included, reads back as that string, whatever follows. |
| `JtiStores.AssertionKeyIsInjective` | issuer+verifier/src/providers/in-memory/in-memory-oauth-client-assertion-jti-store.provider.ts:9 | The JSON pair key tells client and jti apart for all JavaScript strings. |
| `JtiStores.InMemoryJtiStore.CleanupExpired` | issuer+verifier/src/providers/in-memory/in-memory-dpop-proof-jti-store.provider.ts:9-16 | The sweep leaves exactly the entries not yet past their expiry. |
| `JtiStores.InMemoryJtiStore.SaveIfAbsent` | issuer+verifier/src/providers/in-memory/in-memory-oauth-client-assertion-jti-store.provider.ts:23-34 | Accepts exactly the keys that are not live, and then keeps them for their lifetime. |
| `JtiStores.SweptExactly` | aws/src/providers/dynamodb-dpop-proof-jti-store.provider.ts:41-75 | A sweep takes an entry whose rounded-up TTL second is past, and nothing else. |
| `ReplayProtection.SecondAcceptanceIsLate` | issuer+verifier/src/providers/dpop-proof.provider.ts:79-82 | In every backend, a second acceptance of a proof comes after the jti lifetime and before the end of the proof's own window, so the first came before the end of its iat second. |
| `ReplayProtection.ReplayableExactlyWhen` | issuer+verifier/src/providers/dpop-proof.provider.ts:148-153 | In every backend, a proof accepted at t can be accepted again in some run exactly when t is before iat*1000+999. |
| `ReplayProtection.ProofFromTheFutureReplays` | issuer+verifier/src/authz.flows.ts:842-854 | Any proof a minute ahead of the server is accepted twice under the default policy. |
| `ReplayProtection.ProofRefusalHasACause` | issuer+verifier/src/authz.flows.ts:842-854 | A good proof is refused as a replay only while an accepted proof of its own key is remembered whose jti is the same, or in the cloud has the same UTF-8 form. |
| `ReplayProtection.FalselyRefusedExactlyWhen` | aws/src/providers/dynamodb-dpop-proof-jti-store.provider.ts:26-75 | A good proof can be refused although no accepted one had its key and jti exactly in the cloud, and there exactly for a jti that another string encodes like. |
| `ReplayProtection.UnpairedSurrogatesCollide` | google-cloud/src/providers/firestore-dpop-proof-jti-store.provider.ts:8-9 | For every key, a run of two proofs with jti U+D800 and U+D801, each on its own: both are accepted in memory, and the second is refused in the cloud. |
| `ReplayProtection.AssertionAcceptedAtMostOnce` | issuer+verifier/src/authz.flows.ts:1074-1110 | In every backend, each client assertion is accepted at most once in any run, and only strictly before its exp, although signatures are tolerated ten seconds longer. |
| `ReplayProtection.RefusalHasACause` | issuer+verifier/src/authz.flows.ts:1092-1110 | In every backend, a good assertion is refused as a replay only after an accepted one of the same client and jti that is not past its exp. |
| `ReplayProtection.LiveEntryHasASource` | issuer+verifier/src/providers/in-memory/in-memory-oauth-client-assertion-jti-store.provider.ts:23-34 | Every cache entry was put there by an accepted use and has that use's expiry. |
| `ReplayProtection.WindowExactly` | issuer+verifier/src/providers/dpop-proof.provider.ts:142-160 | The clock interval in which a proof passes, in milliseconds; by default from a minute before its iat to the end of the 360th second after it. |
| `NonceStore.InMemoryNonceStore.Save` | issuer+verifier/src/providers/in-memory/in-memory-nonce-store.provider.ts:29-38 | Stores the nonce with its expiry and touches nothing else. |
| `NonceStore.InMemoryNonceStore.Validate` | issuer+verifier/src/providers/in-memory/in-memory-nonce-store.provider.ts:12-42 | True exactly for a live nonce, which stays; an expired one is removed. |
| `NonceStore.InMemoryNonceStore.Revoke` | issuer+verifier/src/providers/in-memory/in-memory-nonce-store.provider.ts:43-46 | Removes the nonce and tells whether it was there. |
| `NonceStore.InMemoryNonceStore.Consume` | issuer+verifier/src/providers/in-memory/in-memory-nonce-store.provider.ts:47-53 | True exactly for a live nonce, which is then gone. |
| `NonceStore.AtMostOneConsume` | aws/src/providers/dynamodb-nonce-store.provider.ts:89-105 | Under every interleaving and in every backend, with validates, revokes and sweeps going on, at most one consume of a nonce is accepted. |
| `NonceStore.UsableExactlyWhen` | google-cloud/src/providers/firestore-nonce-store.provider.ts:24-64 | In every schedule the stored nonce is usable exactly until its expiry or the first consume or revoke by anyone. |
| `NonceStore.AcceptedExactlyWhen` | issuer+verifier/src/issuer.flows.ts:429-438 | In every schedule and backend, a request is accepted exactly when its read comes in time and sees a nonce nobody removed, or sees it as it was saved on a stale read, and it gets to revoke it if it only validated. |
| `NonceStore.RefusedExactlyWhen` | aws/src/providers/dynamodb-nonce-store.provider.ts:51-105 | A request that asks is refused exactly when its read does not see a live nonce. |
| `NonceStore.BothAcceptedExactlyWhen` | issuer+verifier/src/verifier.flows.ts:619-625 | Two reads of the current item both lead to acceptance exactly when both requests come to their end and the later one asks in time and before anyone removed the nonce. |
| `NonceStore.AskingAfterRemovalIsRefused` | aws/src/providers/dynamodb-nonce-store.provider.ts:51-87 | A request that asks after a removal is refused, except exactly when an eventually consistent read returns the unexpired nonce as it was saved. |
| `NonceStore.SingleUseInTurnExactlyWhen` | aws/src/providers/dynamodb-nonce-store.provider.ts:51-58 | Used one at a time, an unexpired nonce is accepted once in all, for exactly the backends whose validate reads consistently: all but DynamoDB. |
| `NonceStore.StaleReadAcceptsAgain` | aws/src/providers/dynamodb-nonce-store.provider.ts:51-87 | A schedule in which a validate and revoke pair that follows another one accepts the nonce again on a stale read. |
| `NonceStore.OverlappingPairsBothAccept` | issuer+verifier/src/issuer.flows.ts:429-438 | In every backend, a schedule with current reads in which two overlapping validate and revoke pairs both accept one nonce. |
| `NonceStore.UsesAlone` | aws/src/providers/dynamodb-nonce-store.provider.ts:51-105 | In any schedule and backend, a consume, or a validate and revoke, that is left alone is accepted exactly when the nonce is live, and removes it. |
| `NonceStore.SurroundingsExactly` | google-cloud/src/providers/firestore-nonce-store.provider.ts:24-64 | When the sweeper may come, that clocks run forwards, and that only DynamoDB reads may be stale. |
| `Issuance.CredentialServer.OfferCredential` | issuer+verifier/src/issuer.flows.ts:285-286 | Saves the offered configurations under the fresh code, or refuses an unusable tx_code. |
| `Issuance.CredentialServer.CreateNonce` | issuer+verifier/src/authz.flows.ts:1125-1131 | Saves the nonce with its lifetime. |
| `Issuance.CredentialServer.CheckProofNonce` | issuer+verifier/src/authz.flows.ts:1149-1163 | A required nonce must be present and live, and is spent by asking; when none is required nothing changes. |
| `Issuance.CredentialServer.CreateAccessToken` | issuer+verifier/src/authz.flows.ts:1136-1227 | Proof, nonce, jti, code, token and allowed configurations, in that order, with the whole effect on every store on every path. |
| `Issuance.CredentialServer.RedeemCodeAndMint` | issuer+verifier/src/authz.flows.ts:1172-1226 | The code is consumed, then the token is signed, and only then the configurations are saved for it; a failed signing leaves the code spent. |
| `Issuance.CredentialServer.AuthorizeCredentialEndpointAccess` | issuer+verifier/src/authz.flows.ts:887-979 | Token, policy mode, and for DPoP proof, nonce, key binding and jti, with the effect on nonces and jtis on every path. |
| `Issuance.CredentialServer.CheckKeyProofs` | issuer+verifier/src/issuer.flows.ts:404-440 | Key proofs one after the other; a nonce that counts is validated and revoked for each. |
| `Issuance.CredentialServer.IssueCredential` | issuer+verifier/src/issuer.flows.ts:365-466 | Issues only for a configuration allowed for the presented token whose proofs pass. |
| `Issuance.CredentialServer.CreateAuthzRequest` | issuer+verifier/src/verifier.flows.ts:384-396 | Saves the nonce, and the transaction that remembers it. |
| `Issuance.CredentialServer.VerifyPresentations` | issuer+verifier/src/verifier.flows.ts:619-630 | Spends the transaction's nonce and removes the transaction exactly when it accepts. |
| `IssuanceGuarantees.IssuedCredentialWasOffered` | issuer+verifier/src/issuer.flows.ts:365-385 | In every run, an issued configuration was offered under a code that was redeemed by exactly one request, for the very token that was then properly authorized, in that order. |
| `IssuanceGuarantees.CodeRedeemedAtMostOnce` | issuer+verifier/src/authz.flows.ts:1172-1180 | No code is redeemed twice in a run, whoever asks. |
| `IssuanceGuarantees.AllowedEntriesAreNeverOverwritten` | issuer+verifier/src/authz.flows.ts:1186-1219 | Minting never overwrites an allowed-configuration entry nor repeats a token, because the code in sub is used once. |
| `IssuanceGuarantees.BoundTokenNeedsItsKey` | issuer+verifier/src/authz.flows.ts:795-857 | A token minted with a DPoP key is only accepted with a proof by that key over that token, and a bearer token only as one. |
| `IssuanceGuarantees.NonceAcceptedAtMostOnce` | issuer+verifier/src/authz.flows.ts:820-833 | Across both DPoP uses, key proofs and presentations, each generated nonce is accepted at most once in a run. |
| `IssuanceGuarantees.TransactionAcceptsAtMostOnce` | issuer+verifier/src/verifier.flows.ts:619-630 | Each verifier transaction accepts at most one presentation in a run. |
| `IssuanceConditions.AuthorizedExactlyWhen` | issuer+verifier/src/authz.flows.ts:887-979 | A credential request is authorized exactly when its token was minted here and is unexpired, its client if any is registered, and it is an allowed unbound bearer token or comes with a timely proof by its own key over it with a live nonce where one is required and a jti not remembered; the proof is then spent. |
| `IssuanceConditions.BoundTokenAcceptedExactlyWhen` | issuer+verifier/src/authz.flows.ts:795-857 | The DPoP half of that, over thumbprint, window, token hash, nonce and jti. |
| `IssuanceConditions.ProofsPassExactlyWhen` | issuer+verifier/src/issuer.flows.ts:404-440 | The key proofs pass exactly when every one verifies and, with c_nonce, each carries a live nonce that no earlier proof carries. |
| `IssuanceConditions.IssuedExactlyWhen` | issuer+verifier/src/issuer.flows.ts:365-466 | A credential is issued exactly when its configuration is known, the readable entry of the presented token allows it, there is a key proof, all of them pass, and the credential is built. |
| `IssuanceConditions.TokenCarries` | issuer+verifier/src/authz.flows.ts:1186-1219 | The token names its code, client, key, second and configured or default lifetime; the entry saved for it holds exactly the configurations of that code, and the code is gone. |
| `IssuanceConditions.TokenRequestSpendsItsProof` | issuer+verifier/src/authz.flows.ts:1149-1171 | A token issued with a proof had a timely one with a new jti, which is remembered for the length of the window and whose required nonce is gone. |
| `IssuanceConditions.PresentationAcceptedExactlyWhen` | issuer+verifier/src/verifier.flows.ts:512-630 | A presentation is accepted exactly when it verified and its transaction and nonce are live; both are then gone. |
| `IssuanceConditions.AskedThenPresented` | issuer+verifier/src/verifier.flows.ts:384-396 | What was asked for is accepted exactly when it verifies within the lifetimes of both transaction and nonce. |
| `IssuanceConditions.ProofPassesAgainOnlyLate` | issuer+verifier/src/authz.flows.ts:842-854 | In any run of the flows, over token and credential endpoint together, a jti of one key that got through does so again only after the length of the window, and for one iat only if it was ahead of the server. |
| `InterleavedIssuance.ScheduleKeepsInv` | issuer+verifier/src/authz.flows.ts:1172-1226 | Under every interleaving of the store calls, codes, redeemers, entries and issued credentials stay in step. |
| `InterleavedIssuance.CodeIsRedeemedOnce` | issuer+verifier/src/authz.flows.ts:1172-1180 | Under every interleaving a code is redeemed by at most one request. |
| `InterleavedIssuance.IssuedWasOffered` | issuer+verifier/src/issuer.flows.ts:370-385 | Under every interleaving an issued configuration was offered under a code that exactly one request redeemed, which minted the presented token and had saved its entry. |
| `InterleavedIssuance.SavesNeverOverwrite` | issuer+verifier/src/authz.flows.ts:1214-1219 | Under every interleaving no save overwrites an entry. |
| `InterleavedIssuance.FetchFindsTheOffer` | issuer+verifier/src/issuer.flows.ts:370-377 | At every moment a fetch for a token finds either nothing or exactly what was offered under its code. |
| `InterleavedIssuance.HonestStepsIssue` | issuer+verifier/src/issuer.flows.ts:365-466 | In the middle of any schedule, an offer, its redemption with token and save, and a fetch issue what was offered. |
| `IssuanceClient.ObtainToken` | issuer+verifier/src/authz.flows.ts:1172-1219 | After an offer, a bearer token is obtained exactly when the tx_code is usable and right and the code is redeemed in time; the server then keeps the offered configurations for it. |
| `IssuanceClient.UseToken` | issuer+verifier/src/issuer.flows.ts:365-466 | A bearer token and one key proof over a fresh nonce lead to a credential exactly when token, entry and nonce are in time and the configuration is allowed. |
| `IssuanceClient.ObtainCredential` | issuer+verifier/src/issuer.flows.ts:226-466 | From offer to credential: issued exactly when the redemption is right and in time and the three lifetimes are kept, and then code and nonce are spent. |
| `TokenExchange.ChallengeSpendsNothing` | issuer+verifier/src/authz.flows.ts:1149-1163 | A token request refused with use_dpop_nonce changes neither codes nor jtis and leaves every live nonce live. |
| `TokenExchange.TokenIssuedExactlyWhen` | issuer+verifier/src/authz.flows.ts:1136-1227 | A token is issued exactly when the proof passes, its nonce is live, its jti unused, the code redeemable, and the server can sign. |
| `TokenExchange.SigningFailureSpendsTheCode` | issuer+verifier/src/authz.flows.ts:1203-1209 | Exactly when all but the signing succeeds, the code is spent and nothing is minted or saved for it. |
| `TokenExchange.AskWithoutNonce` | wallet/wallet.go:1401 | The first request is challenged exactly when its proof is in its window, and changes nothing at the server. |
| `TokenExchange.RetryWithNonce` | wallet/wallet.go:1402-1406 | The retry gets a token exactly when its proof is in its window and new, the nonce has not expired, the code is redeemable and the server can sign. |
| `TokenExchange.ObtainAccessToken` | wallet/wallet.go:1363-1410 | With one retry after a challenge, the wallet gets a token exactly when both proofs are in their window, the retry arrives within the nonce's lifetime with an unused jti, the code is redeemable and the server can sign; so two requests always suffice. |
| `AuthenticatedExchange.Authenticate` | wallet/wallet.go:1366-1376 | A freshly built assertion is accepted exactly when it fits the registration, is in time and its jti is new, and then exactly its jti is spent until its exp. |
| `AuthenticatedExchange.OtherJtiStaysNew` | wallet/wallet.go:698-752 | The first request's assertion never stands in the way of the retry's. |
| `AuthenticatedExchange.ObtainAccessToken` | wallet/wallet.go:1349-1411 | With private_key_jwt and DPoP together, a token is issued exactly when both assertions fit, are in time and new, the first proof gets as far as the challenge, the retry's proof passes, the code is redeemable and the server can sign. |
| `TokenLifetime.WholeSecondsOutlive` | issuer+verifier/src/authz.flows.ts:1186-1219 | For whole-second lifetimes the configuration entry reads at every instant the token is unexpired. |
| `TokenLifetime.EntryOutlivesTokenExactlyWhen` | issuer+verifier/src/providers/access-token.provider.ts:9-20 | The entry outlives the token for exactly the lifetimes that are whole seconds or below one second. |
| `TokenLifetime.UnexpiredTokenFindsItsEntry` | issuer+verifier/src/issuer.flows.ts:370-377 | In every run of the flows, a request that presents an unexpired token with a whole-second lifetime finds the entry saved with it, with the configurations offered under its code. |
| `TokenLifetime.FractionLosesEntry` | issuer+verifier/src/providers/access-token.provider.ts:9-20 | For any other lifetime, an instant at which the token is valid and its entry is gone. |
| `TokenLifetime.DynamoDbAllowedConfigurationStore.Save` | aws/src/providers/dynamodb-allowed-credential-configuration-store.provider.ts:52-73 | Stores the configurations with millisecond expiry and its rounded-up TTL second, and touches no other key. |
| `TokenLifetime.DynamoDbAllowedConfigurationStore.Fetch` | aws/src/providers/dynamodb-allowed-credential-configuration-store.provider.ts:75-99 | Returns the configurations exactly while the entry is readable, and removes an expired one. |
| `TokenLifetime.DynamoDbAllowedConfigurationStore.Sweep` | aws/src/providers/dynamodb-allowed-credential-configuration-store.provider.ts:52-75 | No TTL removal ever takes an entry that is still readable. |
| `TokenLifetime.FetchWhileTokenVerifies` | aws/src/providers/dynamodb-allowed-credential-configuration-store.provider.ts:52-99 | Save, any sweep, and a fetch while the token verifies: what was saved is found. |
| `ClientIdentity.NegotiationSucceedsExactlyWhen` | wallet/wallet.go:777-868 | Negotiation succeeds exactly when the configured method is advertised and its own material is there; it never replaces the method, and anonymous access only drops the client id. |
| `ClientIdentity.ServerReads` | issuer+verifier/src/authz.flows.ts:109-145 | The server reads from a negotiated request the wallet's id, trimmed, exactly when it was sent. |
| `ClientIdentity.AnonymousExactlyWhenNoIdSent` | issuer+verifier/src/authz.flows.ts:469-542 | The server takes a negotiated request for anonymous exactly when no client id was sent, exactly when a sent id is not blank to JavaScript too. |
| `ClientIdentity.ByteOrderMarkIsAnonymous` | issuer+verifier/src/authz.flows.ts:142-145 | A client id of one byte order mark is sent by the wallet and taken for no client by the server, which then refuses its key proof. |
| `ClientIdentity.ProofIssuerAcceptedExactlyWhen` | issuer+verifier/src/providers/credential-proof-jwt.provider.ts:280-324 | Once the request is resolved, the wallet's key-proof issuer is accepted exactly when a client id that was sent has no blanks around it. |
| `ClientIdentity.RegisteredMethodIsResolved` | issuer+verifier/src/authz.flows.ts:469-542 | For an id without blanks around it, the server resolves a negotiated request exactly when it names no client or one registered for that method or for none. |
| `ClientIdentity.PaddedClientIdLosesItsProofs` | wallet/wallet.go:1484-1492 | A concrete client id with a leading blank that negotiates and resolves, and whose key proof is refused. |
| `ClientIdentity.NegotiationErrorExactly` | wallet/wallet.go:777-868 | Why a negotiation fails: the first fault in a stated order. |
| `ClientIdentity.RequestCarries` | wallet/receiver/plugins/oid4vci/oid4vci.go:183-205 | Which client id, assertion and assertion type a negotiated token request carries. |
| `ClientIdentity.TrimmedExactly` | issuer+verifier/src/authz.flows.ts:109-145 | Trimming keeps exactly the part between the outermost characters that are not blank to JavaScript. |
| `ClientIdentity.RequestClientIdExactly` | issuer+verifier/src/authz.flows.ts:109-145 | Which client a request is from: the body's id, else what the assertion's issuer and subject agree on. |
| `ClientIdentity.ContextExactly` | issuer+verifier/src/authz.flows.ts:469-542 | For any request and registration, whether it is anonymous, refused and why, or from the client it names. |
| `ClientIdentity.IssuerAcceptedExactlyWhen` | issuer+verifier/src/providers/credential-proof-jwt.provider.ts:283-301 | A key proof may always leave its issuer out; one that is there must name the token's own client. |
| `ClientAssertions.TokenEndpoint.ResolveTokenRequestClientPolicy` | issuer+verifier/src/authz.flows.ts:1029-1121 | Context, anonymous access, assertion checks and first use of the jti, with the effect on the cache on every path. |
| `ClientAssertions.AssertionAcceptedExactlyWhen` | issuer+verifier/src/authz.flows.ts:229-442 | For a registered id without blanks around it, the wallet's own assertion is accepted exactly when its clock is at most ten seconds ahead, it arrives before its exp, its audience is expected, the registration fits, and its jti is not in the cache. |
| `ClientAssertions.UnauthenticatedRequestIsServed` | issuer+verifier/src/authz.flows.ts:1029-1057 | A request negotiated without authentication is served exactly when it names no client or one registered for that; it is anonymous exactly when no id was sent, its key-proof issuer is accepted, and the jti cache is untouched. |
| `ClientAssertions.DefaultAudienceIsExpected` | wallet/wallet.go:989-1000 | With no audience configured on either side, the issuer the wallet uses is one the server expects. |
| `ClientAssertions.FreshJtiIsNotInTheWay` | issuer+verifier/src/authz.flows.ts:1092-1110 | The entry of a first request never makes the cache refuse a second one with another jti. |
| `ClientAssertions.AcceptedAssertionIsGenuine` | issuer+verifier/src/authz.flows.ts:229-442 | Whatever was sent, an accepted assertion was signed by a key registered for the client it names, before its exp, and its jti was unused and is now spent until then. |
| `ClientAssertions.PolicyStepIsAnAssertionUse` | issuer+verifier/src/authz.flows.ts:1074-1110 | Each request acts on the jti cache as one use of a replay run, so single use carries over to the endpoint. |
| `ClientAssertions.SelectsExactly` | issuer+verifier/src/authz.flows.ts:208-221 | With a kid the key checked with is the first registered one of that kid, without one the only registered key, and otherwise none is selected. |
| `ClientAssertions.AudienceExactly` | wallet/wallet.go:989-1000 | The audience of an assertion: the configured one, else the issuer, else the token endpoint. |
| `ClientAssertions.ExpectedExactlyWhen` | issuer+verifier/src/authz.flows.ts:174-187 | Which audiences a server expects: the registered one alone, else its token endpoint and its issuer. |
| `ClientAssertions.VerifiesExactlyWhen` | issuer+verifier/src/authz.flows.ts:229-442 | For any sender: an assertion verifies exactly when its claims name client, audience, jti and a time in force, its algorithm is an allowed signature, and its key is the right registered one. |
| `ClientAssertions.PolicyWithKeyExactlyWhen` | issuer+verifier/src/authz.flows.ts:1058-1110 | A request of a client registered for private_key_jwt is served exactly when its assertion verifies, comes before its exp, and its jti is not remembered. |
| `ClientAssertions.PolicyWithoutKeyExactly` | issuer+verifier/src/authz.flows.ts:1029-1057 | Any other request: what it is answered, with anonymous access by pre-authorized code only where the metadata says so; the jti cache is untouched. |
| `ClientAssertions.LateAssertionExactly` | issuer+verifier/src/authz.flows.ts:1074-1091 | An assertion verifies less than ten seconds past its exp, and is refused as expired from its exp on. |
| `PresentationCheck.VerifyAnswer` | issuer+verifier/src/verifier.flows.ts:518-591 | One answer passes exactly when its query is known, its format has a provider, and every one of at least one presentations verifies; otherwise the fault is one it has. |
| `PresentationCheck.CheckCoverage` | issuer+verifier/src/verifier.flows.ts:594-617 | Passes exactly when every query is answered, or with sets every set not marked optional has an option wholly answered. |
| `PresentationCheck.VerifyPresentations` | issuer+verifier/src/verifier.flows.ts:512-617 | Passes exactly when every answer stands and the answered ids cover the query; the result's keys are exactly those ids, with their payloads in order; otherwise the first fault is reported. |
| `PresentationCheck.ProviderIsToldExactly` | issuer+verifier/src/verifier.flows.ts:537-579 | A presentation goes to the provider of its query's format, with the transaction's audience and nonce, and for SD-JWT the claims the query names by plain paths. |
| `PresentationCheck.StandsExactlyWhen` | issuer+verifier/src/verifier.flows.ts:518-591 | An answer stands exactly when it is for a query of the request and consists of at least one presentation, all verifying. |
| `Dcql.CoveredExactlyWhen` | issuer+verifier/src/verifier.flows.ts:594-617 | Without sets every query is answered; with sets every one not marked optional has an option wholly answered. |
| `HeldCredentials.NewestIsStablySorted` | wallet/wallet.go:1872-1897 | The newest-first list is in order, blanks last, and keeps the credentials of each age in their original order. |
| `HeldCredentials.StableSortIsUnique` | wallet/wallet.go:1877-1891 | There is only one such arrangement, so any stable sort gives it. |
| `HeldCredentials.CandidatesAreSorted` | wallet/wallet.go:1805-1835 | The candidates for a query are exactly the matching credentials held, newest first. |
| `HeldCredentials.CandidatesShareFlavor` | wallet/wallet.go:1838-1851 | Candidates for one query always share their serialization flavor, so that check never fails. |
| `HeldCredentials.MatchesExactlyWhen` | wallet/presenter/plugins/oid4vp/dcql.go:62-94 | A credential matches a query exactly when it is held with a known flavor of the query format and, for dc+sd-jwt with vct_values, has a type among them. |
| `HeldCredentials.CandidateExactlyWhen` | wallet/wallet.go:1805-1835 | The candidates for a query are exactly the credentials held that match it, stated on flavor and types. |
| `HeldCredentials.NewestWithin` | wallet/wallet.go:1872-1897 | With a limit, the newest credentials up to it. |
| `QuerySelection.SingleCredentialAnswer` | wallet/presenter/plugins/oid4vp/dcql.go:160-191 | The first held query, in order, that answers every required set alone and some set at all; none exactly when there is none. |
| `QuerySelection.SelectCredentialQuery` | wallet/presenter/plugins/oid4vp/dcql.go:100-151 | Selects the first held query that answers the request, fails exactly when there is none, and says access_denied exactly when something required is not held. |
| `QuerySelection.AnswersExactlyWhenCovered` | wallet/presenter/plugins/oid4vp/dcql.go:160-191 | A query is a whole answer to the wallet exactly when the verifier's coverage check passes for it alone and it answers some set. |
| `QuerySelection.RequiredSetDecides` | issuer+verifier/src/verifier.flows.ts:594-617 | With something required, the verifier's coverage check alone decides. |
| `QuerySelection.SelectedAnswerIsComplete` | issuer+verifier/src/verifier.flows.ts:512-617 | A response to the selected query is accepted exactly when its one presentation stands. |
| `QuerySelection.SatisfiableExactlyWhen` | wallet/presenter/plugins/oid4vp/dcql.go:100-151 | An option is satisfiable exactly when all its ids are held. |
| `QuerySelection.AnswersRequestExactlyWhen` | wallet/presenter/plugins/oid4vp/dcql.go:160-191 | A query answers the request alone exactly when it is the only one without sets; with sets, when it alone fills an option of each set not marked optional, and of some set. |
| `PresentationSearch.Presenter.Refuse` | wallet/wallet.go:1855-1870 | Tells the verifier the error when there is a code and a place for it; a denial goes out without its reason. |
| `PresentationSearch.Presenter.SelectCredentials` | wallet/wallet.go:1805-1851 | Picks the first eligible query not set aside with all its candidates, and fails exactly when there is none. |
| `PresentationSearch.Presenter.PresentFirstDisclosable` | wallet/wallet.go:1742-1761 | Sends the first candidate that does not merely lack the claims, or nothing when all of them lack them. |
| `PresentationSearch.Presenter.TryQuery` | wallet/wallet.go:1695-1726 | One round puts its query aside exactly for the reasons that allow it, and otherwise ends the search. |
| `PresentationSearch.Presenter.Present` | wallet/wallet.go:1643-1735 | The search tries each query at most once, sends at most one message, settles on the first eligible query that is not put aside, and otherwise refuses with the first reason recorded. |
| `PresentationSearch.PresentedIsTheNewestThatCan` | wallet/wallet.go:1742-1761 | What is presented is the most recently received matching credential that can disclose the claims, earlier stored first among equals. |
| `PresentationSearch.RefusedMeansNothingFits` | wallet/wallet.go:1685-1726 | When the search refuses, no credential for any answerable query could have been presented. |
| `PresentationSearch.PresentedIsReferenced` | wallet/presenter/plugins/oid4vp/oid4vp.go:327-337 | A presentation only ever goes out for a query that every transaction data entry names, in a request whose transaction data can be hashed. |
| `PresentationSearch.RefusalReaches` | wallet/wallet.go:1855-1870 | A refusal reaches the verifier only by direct_post, a denial without its reason, and a plain error not at all. |
| `DerSignatures.ConvertDERToRaw` | wallet/common/jose/signer.go:95-140 | The conversion, error by error. |
| `DerSignatures.RightAligned` | wallet/common/jose/signer.go:132-139 | The zeroed buffer filled from the right end of each half holds both numbers padded to the key size. |
| `DerSignatures.BytesRoundTrip` | wallet/common/jose/signer.go:125-127 | Big-endian bytes of a number read back as that number. |
| `DerSignatures.SignatureReadsBack` | wallet/common/jose/signer.go:111-119 | Reading a DER-encoded signature gives back both numbers, long-form length included. |
| `DerSignatures.ConvertsOtherLengths` | wallet/common/jose/signer.go:95-140 | Off the length of 2k octets, the halves are the two numbers, each padded to k octets. |
| `DerSignatures.ConversionCorrectExactlyWhen` | wallet/common/jose/signer.go:95-154 | For all signatures of the three curves, conversion is right exactly when the DER encoding is not 2k octets long. |
| `DerSignatures.AmbiguousLengthIsWrong` | wallet/common/jose/signer.go:100-103 | A DER signature of 2k octets comes back unchanged and never holds the two numbers. |
| `DerSignatures.AmbiguousSignaturesExist` | wallet/common/jose/signer.go:100-103 | Such signatures exist for each of the three key sizes. |
| `DerSignatures.ConversionIsInjective` | wallet/common/jose/signer.go:95-140 | Two signatures that convert alike are the same signature. |
| `DerSignatures.ConvertedExactlyWhen` | wallet/common/jose/signer.go:95-140 | Which bytes are converted at all: those of the raw length, and DER encodings of two numbers of the key size. |
| `ClaimTrees.GetClaimValue` | issuer+verifier/src/providers/issue-credential.utils.ts:24-34 | Reads the value at a safe path through own object members, or nothing; refuses an unsafe path. |
| `ClaimTrees.SetClaimValue` | issuer+verifier/src/providers/issue-credential.utils.ts:36-53 | Writes at a safe path, making new objects exactly where there is none on the way; the whole heap afterwards is stated. |
| `ClaimProjection.ReadClaim` | issuer+verifier/src/providers/issue-credential-jwt-vc-json.provider.ts:66-76 | The value of a claim at its own path, or else without its prefix, and when the path is refused. |
| `ClaimProjection.AddClaim` | issuer+verifier/src/providers/issue-credential-jwt-vc-json.provider.ts:66-81 | One claim keeps the subject a sub-tree of the source that holds every claim so far. |
| `ClaimProjection.WriteProjects` | issuer+verifier/src/providers/issue-credential.utils.ts:36-53 | Writing a source value at its own path keeps the subject a sub-tree of the source, whatever was written before. |
| `ClaimProjection.NothingElseFrom` | issuer+verifier/src/providers/issue-credential-jwt-vc-json.provider.ts:62-82 | Every place in the subject lies on a configured path. |
| `ClaimProjection.SourceIsRoot` | issuer+verifier/src/providers/issue-credential-jwt-vc-json.provider.ts:66-71 | A source without a `credentialSubject` of its own is the one object all claims are read from, and so is any source when no path is prefixed. |
| `ClaimProjection.OwnSubjectIsRoot` | issuer+verifier/src/providers/issue-credential-jwt-vc-json.provider.ts:66-71 | With a `credentialSubject` in the source, claims are all read from that one when all paths are prefixed and none falls back past it. |
| `ClaimProjection.BuildSubject` | issuer+verifier/src/providers/issue-credential-jwt-vc-json.provider.ts:62-82 | For overlapping claims in any order, all read from one object: the source is unchanged, every configured path that object has reads the same from the subject, nothing else is there, and it fails exactly when a claim is refused. |
| `ClaimProjection.PathsExactly` | issuer+verifier/src/providers/issue-credential.utils.ts:8-22 | Which paths are unsafe, and when the prefix is dropped. |
| `ClaimSharing.WriteSparesExactlyWhen` | issuer+verifier/src/providers/issue-credential.utils.ts:36-53 | A write into the subject leaves every object of the source as it was exactly when the first object it changes is none of them, or nothing was missing on the way and the value is there already. |
| `ClaimSharing.TwoPlacesWriteTheSource` | issuer+verifier/src/providers/issue-credential-jwt-vc-json.provider.ts:62-82 | A source and two claims, one read from its own `credentialSubject` and one beside it, whose second write lands in the source. |
| `SdJwtPacking.SplitClaims` | issuer+verifier/src/providers/issue-credential-dc-sd-jwt.provider.ts:135-163 | Each root claim asked for and present is, once, in the payload or among the disclosures by its name, with its source value; fails exactly when a claim is refused. |
| `SdJwtPacking.CreateDisclosures` | issuer+verifier/src/providers/issue-credential-dc-sd-jwt.provider.ts:20-44 | One disclosure per claim in order, and the digests of exactly those in sorted order. |
| `SdJwtPacking.SortSorts` | issuer+verifier/src/providers/issue-credential-dc-sd-jwt.provider.ts:38-41 | The sorted digests are in code-unit order and a permutation of the digests. |
| `SdJwtPacking.SplitInvertsJoin` | issuer+verifier/src/providers/issue-credential-dc-sd-jwt.provider.ts:215-218 | Splitting joined parts at the separator gives the parts back, in order. |
| `SdJwtPacking.Pack` | issuer+verifier/src/providers/issue-credential-dc-sd-jwt.provider.ts:189-218 | The payload's members, the digests of exactly the appended disclosures, and a text that splits back into the JWT and them. |
| `SdJwtPacking.CreateCredential` | issuer+verifier/src/providers/issue-credential-dc-sd-jwt.provider.ts:135-218 | Each disclosable root claim of the source is disclosed once, each other one is in the payload unless its name is taken by the digests, and the text splits back. |
| `SdJwtPacking.LeqExactlyWhen` | issuer+verifier/src/providers/issue-credential-dc-sd-jwt.provider.ts:38-41 | The sort order of digests: by the first code unit that differs, a prefix first. |

## Left out

- ClaimProjection.BuildSubject: says nothing about the subject when claims are read from two places of one source, some inside its own `credentialSubject` and some beside it, with different values there; what a single write then does to the source is in `ClaimSharing`.
- KmsKeyStore.KmsSignatureKeyStore.Save: is one save with no other writer in between; the races are in the step relation.
- TokenLifetime.DynamoDbAllowedConfigurationStore.Sweep: stands for the database's own removals, which are not code of the repository.
- ReplayProtection.ReplayableExactlyWhen: takes every other check of the proof to pass; nonces, which the server may require on top, have their own theorems.
- PresentationSearch.Presenter.Present: takes the credential store as unchanged during one search, and serializing as a function of credential and query; the caller's redirect handler and building the endpoint URL are not modelled.
- ClientAssertions.AssertionAcceptedExactlyWhen: takes signing to succeed and the signature to verify under exactly the key that made it; URL text is compared as strings.
- IssuanceGuarantees.NonceAcceptedAtMostOnce: takes a validate to read the current nonce, as the in-memory and Firestore stores do; what DynamoDB's stale reads change is in `NonceStore.SingleUseInTurnExactlyWhen`.
- NonceStore.AcceptedExactlyWhen: a DynamoDB consume deletes and then reads the clock; the two are one step here.
- Surrogates on their own are covered in tx codes and in the replay caches of every backend, and not in the client authentication checks, whose identifiers are text.
- Issuance.CredentialServer.CreateAccessToken: keeps the in-memory jti cache; for proofs the cloud's differs as `JtiStores.BackendsAgreeOnProofsExactlyWhen` says.
- IssuanceClient.ObtainToken: takes a server that can sign.
- InterleavedIssuance.IssuedWasOffered: DPoP proofs, nonces and expiry instants are not part of the interleaved model; a removal of an entry or a code may come at any moment.
- Gate-rejected redemption requests: they write nothing and are not part of the replay order.
- Routes, HTTP, CDK stacks, Lambda handlers, documentation and example programs: plumbing.
- Cryptography, JOSE, X.509, DID resolution, base64 and JSON documents: foreign code, taken as functions; JSON is spelled out only for the jti pair key.
- What one presentation, SD-JWT or key proof must satisfy inside its provider: a parameter, except the key proof's issuer rule.
- PresentationCheck.ProviderIsToldExactly: leaves out transaction data hashes, allowed algorithms and the key-binding flag, which are passed on as they come.
- Adding `id` to the credential subject after the claim loop, and holder binding in `cnf`: one assignment each.
- Arrays inside claim values and integer-like member names that JavaScript would enumerate first: values are opaque, and the theorems fix no order of members beyond the one the loop uses.
- A credential query id `__proto__`, which a JavaScript object cannot hold as a plain member.
- NaN as tx_code, fractional `iat`, `nbf` or `exp`, and clocks that move backwards within a replay run.
- KMS or database calls that take effect and still report an error.
- Google Cloud KMS import jobs, OCSP and CRL checks, certificate chains, metadata, policy and in-memory key stores: network calls, single-pass checks or plain maps.
