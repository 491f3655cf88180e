# Verified model of the Cloistr vault

A Dafny 4.11 model of the parts of the password manager whose correctness is more than plumbing: text codecs and
their checksum, the key envelope and the sessions over it, the save protocol between clients and server, unbiased
randomness, the rate limiter, CSV import, the folder forest, and the database races around logins, verifier upgrades
and recovery codes. `dafny verify dfyconfig.toml` checks all of it.

## How it is built

| files | area |
|---|---|
| `Bytes`, `Arithmetic`, `Ascii`, `BitStrings` | bytes, results, division facts, hexadecimal, bit strings |
| `ConvertBits`, `Bech32Checksum`, `Bech32`, `Bech32Vectors`, `Npub` | `backend/internal/identity/nostr.go` |
| `Base32`, `Base64` | `packages/vault-crypto/src/totp.ts` (decoder), `packages/vault-crypto/src/encoding.ts` |
| `Envelope`, `VaultSession` | `packages/vault-crypto/src/envelope.ts`, `packages/vault-crypto/src/vault.ts` |
| `SaveProtocol`, `VaultClient` | `packages/vault-client/src/client.ts`, `backend/internal/vault/vault.go` |
| `Random`, `Passwords` | `packages/vault-crypto/src/random.ts` |
| `RateLimit` | `backend/internal/ratelimit/store.go`, `backend/internal/api/ratelimit.go` |
| `Csv` | `frontend/web/src/components/ImportModal.tsx` |
| `Folders`, `FolderService`, `FolderTree` | `backend/internal/vault/folders.go` |
| `Challenges`, `ChallengeTrace`, `ChallengeStores` | `backend/internal/auth/challenge_store.go`, `backend/internal/auth/nostr.go` |
| `AccountLogin` | `backend/internal/auth/auth.go` |
| `RecoveryCodes`, `RecoveryRace`, `RecoveryTrace`, `RecoveryService` | `backend/internal/recovery/recovery.go` |

Loops of the source are loops here, each proved equal to a specification function or to a relation on its input; the
theorems are about the specifications. What no law over all inputs mentions - alphabets, constants, which field an
update takes - is said outright in the methods' contracts or by a published example. Objects that change are classes
whose methods are proved to be the steps of a state machine; invariants and theorems are about every run of that
machine, in every interleaving.

What is assumed, once:

- Cryptography is ideal: a derived key determines its inputs, AES-GCM opens a ciphertext only under the key, nonce and
  additional data it was sealed with, and scrypt verifies an input only against its own hash. JSON, UTF-8 and base64
  fields are inverse pairs. Random values, clocks, query orders and what the network does are parameters.
- Ids, nonces and challenge values drawn at random never repeat where the text says "fresh".
- Each SQL statement is one atomic step, and so are the check and write of `UpdateVault` and each folder request.
- Clocks: the rate limiter's is the database clock in microseconds; challenges have one clock in seconds for all
  replicas and the database. Both never decrease.
- Text is ASCII where the Go code or `base32Decode` handles it byte by byte or changes its case. Elsewhere it is a
  sequence of characters; the base64 and CSV code looks only at ASCII characters and, for blank cells, white space.

## Where the code departs from what is said about it

- `bech32Decode` has no 90-character limit and takes mixed case, contrary to BIP-173, and `DecodeNpub` accepts payloads
  of any length. The theorems say what the code does: `Npub.PayloadComesBack` for every length.
- The Postgres challenge store and the memory store do not always admit the same logins. A login checked in time whose
  delete waits until its challenge has been pruned is admitted by the memory store alone
  (`Challenges.StoresDifferOnLateDelete`). They agree if and only if no delete comes after a prune more than an hour past
  its challenge's expiry (`Challenges.StoresAgreeIff`), so always when requests finish within an hour of their check.
- A user does not always have eight recovery codes after generation. Under READ COMMITTED two regenerations whose deletes
  both run before either commits leave sixteen (`RecoveryRace.OverlapLeavesSixteen`); the number is eight if and only if the
  last regeneration did not overlap another's commit (`RecoveryRace.EightCodesIff`). Single use of each code holds in
  every interleaving.

## Model

| member | source | states |
|---|---|---|
| `ConvertBits.Convert` | backend/internal/identity/nostr.go:208-235 | the loop, whose 64-bit accumulator is never masked, computes the regrouping of the whole bit string; rejects exactly digits out of range and, unpadded, a long or non-zero rest |
| `ConvertBits.PaddedComesBack` | backend/internal/identity/nostr.go:208-235 | regrouping to narrower digits with padding never fails and loses nothing |
| `ConvertBits.UnpaddedComesBack` | backend/internal/identity/nostr.go:208-235 | every word list accepted without padding is exactly what padding produces from the result |
| `ConvertBits.ConvertBitsInverse` | backend/internal/identity/nostr.go:208-235 | padded one way and unpadded the other are mutually inverse, both directions, for all widths up to 8 |
| `Bech32Checksum.ComputePolymod` | backend/internal/identity/nostr.go:194-206 | the loop folds the generator step over the values from register 1 |
| `Bech32Checksum.ApplyFeedback` | backend/internal/identity/nostr.go:199-203 | the inner loop over the five generator words adds exactly the taps of the top bits |
| `Bech32Checksum.StepBounded` | backend/internal/identity/nostr.go:198-205 | a step on any symbol leaves a 30-bit register, so 32 bits hold what the source keeps in an `int` |
| `Bech32Checksum.StepLinear` | backend/internal/identity/nostr.go:198-205 | one step is linear over GF(2) in register and symbol together |
| `Bech32Checksum.StepInjective` | backend/internal/identity/nostr.go:198-205 | one step on the zero symbol sends only the zero register to zero |
| `Bech32Checksum.RunLinear` | backend/internal/identity/nostr.go:194-206 | the whole register run is linear for sequences of any length |
| `Bech32Checksum.BurstLeavesTrace` | backend/internal/identity/nostr.go:194-206 | a non-zero difference confined to six consecutive symbols never runs to zero, however many symbols follow |
| `Bech32Checksum.BurstChangesPolymod` | backend/internal/identity/nostr.go:194-206 | two different sequences equal outside six consecutive symbols have different checksum registers |
| `Bech32Checksum.ChecksumVerifies` | backend/internal/identity/nostr.go:169-182 | appending the created checksum makes any sequence verify |
| `Bech32Checksum.ChecksumUnique` | backend/internal/identity/nostr.go:169-182 | six symbols verify after a sequence if and only if they are its created checksum |
| `Bech32.HrpExpand` | backend/internal/identity/nostr.go:184-192 | said of the slice itself: a zero in the middle, before it the quotient by 32 of each character of the prefix, after it the remainder |
| `Bech32.CreateChecksum` | backend/internal/identity/nostr.go:169-178 | the loop cuts the register into the six symbols that `ChecksumUnique` singles out |
| `Bech32.Bech32Encode` | backend/internal/identity/nostr.go:117-136 | the encoding of prefix and symbols, or the error exactly when a symbol is out of range |
| `Bech32.Bech32Decode` | backend/internal/identity/nostr.go:138-167 | the decoding at the last separator of the lower-cased text, with the source's three errors in its order |
| `Bech32.EncodeThenDecode` | backend/internal/identity/nostr.go:117-167 | every non-empty lower-case prefix and symbol list comes back from its encoding |
| `Bech32.DecodeThenEncode` | backend/internal/identity/nostr.go:117-167 | every accepted string re-encodes to exactly its lower-case form |
| `Bech32.DecodeIffEncode` | backend/internal/identity/nostr.go:117-167 | the decoder accepts exactly the case variants of encodings, each as what it encodes |
| `Bech32.DecodeIgnoresCase` | backend/internal/identity/nostr.go:138-167 | a string and its lower-case form decode alike |
| `Bech32.DecodeErrors` | backend/internal/identity/nostr.go:138-167 | which of its three errors the decoder gives, from the place of the last separator and the characters after it |
| `Bech32.BurstDetected` | backend/internal/identity/nostr.go:180-206 | two data parts that differ only within six consecutive symbols never both verify for one prefix, at any length |
| `Bech32.SubstitutionDetected` | backend/internal/identity/nostr.go:180-206 | any single wrong symbol is caught |
| `Bech32.TranspositionDetected` | backend/internal/identity/nostr.go:180-206 | any swap of unequal neighbours is caught |
| `Bech32Vectors.ShortVector` | backend/internal/identity/nostr.go:117-206 | the string `A12UEL5L` published in BIP-173 decodes to the prefix `a` and no data, which fixes generator, start register and final constant |
| `Bech32Vectors.CharsetIs` | backend/internal/identity/nostr.go:10 | the symbols are written in the order BIP-173 publishes |
| `Npub.ComputeEncodeNpub` | backend/internal/identity/nostr.go:17-37 | length, hexadecimal and regrouping errors in order, else the encoded key |
| `Npub.ComputeDecodeNpub` | backend/internal/identity/nostr.go:41-58 | decoding, prefix and regrouping errors in order, else the key in hexadecimal |
| `Npub.PayloadComesBack` | backend/internal/identity/nostr.go:17-58 | a payload of any length decodes to its hexadecimal form |
| `Npub.NpubRoundTrip` | backend/internal/identity/nostr.go:17-58 | encoding accepts exactly 64 hexadecimal digits, and decoding gives them back in lower case |
| `Npub.NpubCanonical` | backend/internal/identity/nostr.go:17-58 | a string decodes to a 32-byte key if and only if it is, up to case, the npub of that key |
| `Npub.NpubShape` | backend/internal/identity/nostr.go:17-58 | an npub is `npub1` and 58 characters more, and nothing without that prefix, in either case, decodes |
| `Base32.Base32Decode` | packages/vault-crypto/src/totp.ts:9-29 | despite 32-bit wrap-around the loop returns the whole bytes of the characters' bits, fills its buffer exactly, and reports the first bad character with its place |
| `Base32.DecodeInvertsEncode` | packages/vault-crypto/src/totp.ts:9-29 | any text that writes out the RFC 4648 section 6 encoding of some bytes - letters in either case, white space anywhere, any padding - decodes to those bytes |
| `Base32.AlphabetIs` | packages/vault-crypto/src/totp.ts:9-10 | the digits are those of the published alphabet |
| `Base64.BinaryString` | packages/vault-crypto/src/encoding.ts:17-26 | the chunked loop hands over every byte once, in order |
| `Base64.DecodeInvertsEncode` | packages/vault-crypto/src/encoding.ts:17-35 | `base64ToBytes` inverts `bytesToBase64` for all bytes |
| `Base64.CanonicalOfSpelling` | packages/vault-crypto/src/encoding.ts:38-58 | standard or URL-safe, with any padding: all spellings of some bytes share one canonical id, which `base64UrlToBytes` maps back to the bytes |
| `Base64.CanonicalIdempotent` | packages/vault-crypto/src/encoding.ts:48-50 | canonicalising twice is canonicalising once, for any text |
| `Base64.AlphabetsAre` | packages/vault-crypto/src/encoding.ts:38-50 | the digits are those of the two published alphabets, which differ in the last two |
| `Base64.EncodedLength` | packages/vault-crypto/src/encoding.ts:52-58 | padding fills every text up to four characters for each three bytes begun |
| `Envelope.FindPrf` | packages/vault-crypto/src/envelope.ts:253-279 | finds a wrap of the credential under any spelling of its id exactly when there is one |
| `VaultSession.CreateWrites` | packages/vault-crypto/src/envelope.ts:194-224 | a new envelope is one password wrap under the fixed scrypt parameters and a sealed body, each under its own drawn nonce and label |
| `VaultSession.EveryPasswordWrapIsTried` | packages/vault-crypto/src/envelope.ts:232-250 | on any envelope the password gets what the first wrap it opens holds; the error tells whether there was one to try |
| `VaultSession.OperationsWrite` | packages/vault-crypto/src/envelope.ts:299-355 | on any envelope: a save seals under its own nonce and keeps the wraps; an enrolment appends exactly its own wrap; enrolling and revoking keep the body and drop exactly that credential's wraps; refused exactly when nothing would be left |
| `VaultSession.StepKeepsInvariant` | packages/vault-crypto/src/envelope.ts:288-355 | save, enrol and revoke each succeed and keep the invariant, with data and passkeys changed as asked; revoking never hits the last-wrap refusal |
| `VaultSession.RunKeepsInvariant` | packages/vault-crypto/src/vault.ts:121-174 | no sequence of operations fails, and the invariant ends at the last saved data and the passkeys enrolled and not revoked since |
| `VaultSession.PasswordOpens` | packages/vault-crypto/src/vault.ts:54-83 | the password opens the stored vault to its data, every other attempt is refused |
| `VaultSession.PasskeyOpens` | packages/vault-crypto/src/vault.ts:92-107 | a passkey opens the stored vault to its data if and only if it is enrolled and gives the enrolled output, with the right error otherwise |
| `VaultSession.SessionTheorem` | packages/vault-crypto/src/vault.ts:54-174 | after every sequence of saves, enrolments and revocations: data is the last saved, each wrap holds the key that opens the body, one wrap per credential, and password and passkeys reopen exactly that session |
| `VaultSession.MigrationKeepsData` | packages/vault-crypto/src/vault.ts:72-80 | opening a v1 blob succeeds exactly with its password, and the migrated envelope opens to the v1 data with that password only |
| `VaultSession.OtherFormats` | packages/vault-crypto/src/vault.ts:54-107 | with nothing stored, any password creates the empty vault that it alone opens; unrecognised blobs, and passkeys on anything but v2, are refused |
| `VaultSession.PasskeyUnlockSalts` | packages/vault-crypto/src/vault.ts:136-150 | the loop offers one salt per enrolled credential, that of the wrap found for it, or fails exactly on a malformed salt |
| `VaultSession.OfferedSaltIsTried` | packages/vault-crypto/src/vault.ts:136-150 | for every envelope, with any spellings of ids: a salt is offered exactly when unlocking finds a wrap, and it is that wrap's salt |
| `VaultSession.OfferedSaltUnlocks` | packages/vault-crypto/src/envelope.ts:253-285 | a deterministic authenticator evaluated on the offered salt opens any honestly made wrap |
| `SaveProtocol.AcceptedSave` | backend/internal/vault/vault.go:50-101 | a save the server accepts was edited from exactly the content and version it replaces |
| `SaveProtocol.StepKeepsInvariant` | packages/vault-client/src/client.ts:114-218 | every step of clients, server, network and recovery keeps the linear-history invariant |
| `SaveProtocol.RunKeepsInvariant` | packages/vault-client/src/client.ts:114-218 | so does every run of any number of clients with delayed, lost and given-up requests |
| `SaveProtocol.NoLostUpdate` | backend/internal/vault/vault.go:50-101 | in every run the stored content is the accepted edits replayed in version order, the version counts them, and no accepted save overwrites content it was not edited from |
| `SaveProtocol.EditsTakeEffectOnce` | packages/vault-client/src/client.ts:145-218 | no edit takes effect twice, however its request is repeated or delayed |
| `SaveProtocol.LogOnlyGrows` | backend/internal/auth/auth.go:688-692 | saves and recoveries extend the history and never rewrite it |
| `SaveProtocol.AcknowledgedIsDurable` | packages/vault-client/src/client.ts:145-162 | a save reported as accepted is in the history for good, at the version it was based on |
| `VaultClients.Service.GetVault` | backend/internal/vault/vault.go:22-47 | the stored row, or none |
| `VaultClients.Service.UpdateVault` | backend/internal/vault/vault.go:50-101 | writes data and the next version exactly when the stored version is the one given; errors tell a missing row from a conflict and its two versions, and change nothing; other users' rows stay |
| `VaultClients.VaultClient.constructor` | packages/vault-client/src/client.ts:22-35 | a new client is locked at version 0 |
| `VaultClients.VaultClient.Persist` | packages/vault-client/src/client.ts:145-162 | the protocol's end of a save: only an accepted answer moves the version, and nothing touches the session |
| `VaultClients.VaultClient.CreateEntry` | packages/vault-client/src/client.ts:172-191 | refused while locked without a trace, else the session is the old entries and then the new one, and is saved |
| `VaultClients.VaultClient.UpdateEntry` | packages/vault-client/src/client.ts:193-206 | not found exactly when no entry has the id, and then nothing changes; else the first entry with it is replaced and every other place kept |
| `VaultClients.VaultClient.DeleteEntry` | packages/vault-client/src/client.ts:208-218 | not found exactly when no entry has the id; else all entries with it go and every other is kept, as often as before and in order |
| `VaultClients.VaultClient.Unlock` | packages/vault-client/src/client.ts:114-136 | the protocol's unlock: the version is taken before the password is tried, a missing row starts empty, a migrated blob is saved at once |
| `VaultClients.VaultClient.Lock` | packages/vault-client/src/client.ts:138-143 | forgets the session and keeps the version |
| `Random.RandomInt` | packages/vault-crypto/src/random.ts:27-47 | the redraw loop is the draw of which `DrawTakesFirst` and `ResiduesEquallyLikely` speak; bounds out of range are refused |
| `Random.DrawTakesFirst` | packages/vault-crypto/src/random.ts:36-46 | a draw answers with the first word below the largest multiple of the bound, reduced, and leaves the words after it; it fails exactly when every word is at or above |
| `Random.ResiduesEquallyLikely` | packages/vault-crypto/src/random.ts:27-47 | for every bound exactly floor(2^32 / bound) words draw each value, and more than half of all words draw one |
| `Random.DrawsJointlyUniform` | packages/vault-crypto/src/random.ts:27-64 | draws in a row share no word: any values below their bounds come from exactly the product of the floors of 2^32 by each bound of word sequences |
| `Random.Shuffle` | packages/vault-crypto/src/random.ts:57-64 | the in-place swaps produce Fisher-Yates of the draws made, and use up exactly their words |
| `Random.ShuffledIsPermutation` | packages/vault-crypto/src/random.ts:57-64 | whatever is drawn, the result is a permutation |
| `Random.ShuffledInjective` | packages/vault-crypto/src/random.ts:57-64 | for distinct items different draws give different orders |
| `Random.ShuffledSurjective` | packages/vault-crypto/src/random.ts:57-64 | every order is given by some draws |
| `Random.ShuffleExactlyUniform` | packages/vault-crypto/src/random.ts:57-64 | each permutation of distinct items, and nothing else, arises from exactly one sequence of draws |
| `Random.PermutationsEquallyLikely` | packages/vault-crypto/src/random.ts:27-64 | down to the random words: every permutation of distinct items comes from equally many word sequences, that product over the shuffle's bounds |
| `Passwords.GeneratePassword` | packages/vault-crypto/src/random.ts:134-171 | the exact outcome for any words, and every password satisfies its options; options with no class, or too short for their classes, are refused |
| `Passwords.HoldsWhatIsEnabled` | packages/vault-crypto/src/random.ts:134-171 | a password has the length asked for, holds a lower-case letter, an upper-case letter, a digit or a special character exactly when that kind is enabled, and none of I, l, 1, O, 0 when they are excluded |
| `Passwords.PicksAreDraws` | packages/vault-crypto/src/random.ts:66-74 | before the shuffle each character is its own draw below the size of its source, in a row from one stream |
| `RateLimit.Store.Hit` | backend/internal/ratelimit/store.go:33-50 | the new table and what is returned, both branches of the upsert |
| `RateLimit.Store.Prune` | backend/internal/ratelimit/store.go:52-59 | exactly the rows whose window is over go, and are counted |
| `RateLimit.PruneInvisible` | backend/internal/ratelimit/store.go:33-59 | two runs with the same hits return the same counts and remaining times, wherever and however often they prune |
| `RateLimit.WindowEndFixed` | backend/internal/ratelimit/store.go:33-50 | while a window lasts its end stays where it opened and each hit is counted once, whatever else happens |
| `RateLimit.RateBound` | backend/internal/ratelimit/store.go:33-50 | from any state, any half-open interval of n windows admits at most (n + 1) times the limit on one key |
| `RateLimit.RetryAfter` | backend/internal/api/ratelimit.go:66-72 | the least whole number of seconds, at least one, that covers the remaining time |
| `RateLimit.RetryAfterSuffices` | backend/internal/api/ratelimit.go:66-72 | a sole client that waits that long is counted 1 on its next hit, whatever it retried before its window ended and whatever other keys and prunes did |
| `RateLimit.Limit` | backend/internal/api/ratelimit.go:46-89 | said of path, table and answer: paths outside /api/ and the health check are never limited; the auth and api paths draw on their own counter and limit, count once, and are refused exactly beyond it; failed lookups pass |
| `RateLimit.CountersAreSeparate` | backend/internal/api/ratelimit.go:46-89 | two limited requests share a counter exactly when they share bucket and client |
| `Csv.ParseCsvRows` | frontend/web/src/components/ImportModal.tsx:67-123 | the loop ends on every input and computes the scan from the empty state, less blank rows |
| `Csv.ParseUndoesPrint` | frontend/web/src/components/ImportModal.tsx:67-123 | for every RFC 4180 section 2 table - any quoting, LF or CRLF line by line, final line end or not - reading the printed text gives the rows the reader keeps, in order |
| `Csv.VisibleRowsComeBack` | frontend/web/src/components/ImportModal.tsx:67-123 | a table whose rows each have a cell with a visible ASCII character comes back whole, empty cells included |
| `Csv.WhiteRowVanishes` | frontend/web/src/components/ImportModal.tsx:122 | a row of spaces, tabs and line breaks alone contributes nothing, whatever rows stand around it |
| `Csv.ParseIsStable` | frontend/web/src/components/ImportModal.tsx:67-123 | what is read from any text at all survives being printed and read again |
| `Folders.MoveKeepsForestIff` | backend/internal/vault/folders.go:221-241 | on a forest a move leaves a forest if and only if the new parent is not the folder or below it: the cycle check asks the right question |
| `Folders.InsertKeepsForest` | backend/internal/vault/folders.go:24-87 | adding a folder under an owned parent, or none, keeps the forest |
| `Folders.DeleteKeepsForest` | backend/internal/vault/folders.go:302-345 | removing a folder with everything below it keeps the forest |
| `Folders.LeafSubtree` | backend/internal/vault/folders.go:316-338 | without children the cascade removes the folder alone |
| `Folders.StepKeepsForest` | backend/internal/vault/folders.go:24-345 | every request keeps parents present, owned by the same user, and all chains ending at a root |
| `Folders.RunKeepsForest` | backend/internal/vault/folders.go:24-345 | every run of create, update and delete from an empty table keeps the forest, and names unique under a parent |
| `Folders.NoCycle` | backend/internal/vault/folders.go:422-444 | no folder whose chain ends is its own ancestor |
| `Folders.OtherUsersUntouched` | backend/internal/vault/folders.go:302-345 | on a forest no request changes, adds or removes another user's folders, cascades included |
| `FolderServices.FolderService.WouldCreateCycle` | backend/internal/vault/folders.go:422-444 | the walk ends on any parent links, loops included, and answers exactly whether the folder is the new parent or one of its ancestors |
| `FolderServices.FolderService.GetNextPosition` | backend/internal/vault/folders.go:398-420 | one more than every position at that level, 0 at an empty one |
| `FolderServices.FolderService.CreateFolder` | backend/internal/vault/folders.go:24-87 | the create step; the row stored and returned field by field, defaults and next position included, and its refusals |
| `FolderServices.FolderService.UpdateFolder` | backend/internal/vault/folders.go:211-299 | the update step; each field given is taken and each other kept, and each refusal exactly when the source gives it |
| `FolderServices.FolderService.DeleteCascading` | backend/internal/vault/folders.go:312-315 | the cascade removes exactly the rows whose chain reaches the folder, on any parent links |
| `FolderServices.FolderService.DeleteFolder` | backend/internal/vault/folders.go:302-345 | the delete step; recursive removes exactly the folder and what is below it, the other only a childless, empty folder |
| `FolderTrees.GetFolders` | backend/internal/vault/folders.go:129-176 | one fresh node per row of the user, in query order |
| `FolderTrees.Assemble` | backend/internal/vault/folders.go:186-207 | after both passes every node lists exactly the nodes under it and the roots are exactly those without a parent, in query order |
| `FolderTrees.PickHolds` | backend/internal/vault/folders.go:196-205 | a node lists exactly the nodes whose parent it is |
| `FolderTrees.PickInOrder` | backend/internal/vault/folders.go:196-205 | siblings keep the query's order and none is listed twice |
| `FolderTrees.GetFolderTree` | backend/internal/vault/folders.go:179-208 | the assembled tree of the user's rows; on a forest every folder is in it |
| `FolderTrees.PathUnique` | backend/internal/vault/folders.go:186-207 | no folder is reached from the roots in two ways |
| `FolderTrees.TreeConservesFolders` | backend/internal/vault/folders.go:179-208 | on any parent links a folder is in the tree if and only if its chain reaches a root, and then in exactly one place |
| `Challenges.StepKeepsInvariant` | backend/internal/auth/nostr.go:57-120 | every step of issuing, pruning, looking up, checking and consuming keeps the single-use invariant, with either store |
| `Challenges.ChallengesAreSingleUse` | backend/internal/auth/nostr.go:80-120 | in every interleaving a challenge admits at most one login, only for the public key it was issued for, only if unexpired when checked and only if the check verified the event |
| `ChallengeTraces.AdmittedLoginsWereEarned` | backend/internal/auth/nostr.go:20-120 | behind every admitted login, in this order: the issue for its well-formed public key ten minutes before the expiry, its lookup, its verified check no later than the expiry, and its delete |
| `ChallengeTraces.HonestLoginAdmitted` | backend/internal/auth/nostr.go:20-120 | from any reachable state, with either store, a freshly issued challenge admits the login that looks it up, verifies in time and deletes it |
| `Challenges.StepLockstep` | backend/internal/auth/challenge_store.go:35-135 | over the same steps Postgres holds exactly the memory store's rows not pruned so far, and its logins are exactly the timely ones |
| `Challenges.StoresAgreeIff` | backend/internal/auth/challenge_store.go:35-135 | the two stores admit the same logins if and only if no delete came after a prune more than an hour past its challenge's expiry |
| `Challenges.PromptRequestsAgree` | backend/internal/auth/challenge_store.go:35-135 | they agree on every run whose logins delete within an hour of their check |
| `Challenges.StoresDifferOnLateDelete` | backend/internal/auth/challenge_store.go:44-48 | a concrete run, for any public key, that only the memory store admits |
| `ChallengeStores.PgChallengeStore.Put` | backend/internal/auth/challenge_store.go:35-57 | removes exactly what expired more than an hour ago, then inserts unless a row left has that id or value |
| `ChallengeStores.PgChallengeStore.Lookup` | backend/internal/auth/challenge_store.go:59-83 | a row with the value exactly when there is one |
| `ChallengeStores.PgChallengeStore.Consume` | backend/internal/auth/challenge_store.go:85-95 | removes the row and says whether this call did |
| `ChallengeStores.MemoryChallengeStore.Put` | backend/internal/auth/challenge_store.go:108-113 | stores the challenge and prunes nothing |
| `ChallengeStores.MemoryChallengeStore.Lookup` | backend/internal/auth/challenge_store.go:115-125 | the search loop finds a row with the value exactly when there is one |
| `ChallengeStores.MemoryChallengeStore.Consume` | backend/internal/auth/challenge_store.go:127-135 | removes the row and says whether this call did |
| `ChallengeStores.FoundByIsFind` | backend/internal/auth/challenge_store.go:19-20 | among honestly issued rows both lookups have the same single answer |
| `ChallengeStores.AuthenticateWithNostr` | backend/internal/auth/nostr.go:57-120 | undisturbed, said of the event's fields: admitted if and only if it is of the right kind, signed, at most five minutes off and of the caller's public key, and an unexpired challenge of that key has its value, which alone is then deleted; each error exactly when the source gives it; only an expired challenge is dropped besides |
| `AccountLogin.AuthKeySpellings` | backend/internal/auth/auth.go:296-302 | exactly 64 hexadecimal digits parse, to their lower-case form, so two spellings agree when their lower case does |
| `AccountLogin.RunKeepsInvariant` | backend/internal/auth/auth.go:336-431 | every interleaving of reads, upgrades, sessions and recoveries keeps the history of verifiers in order, only extends it, and keeps every pending or admitted login tied to the verifier it proved |
| `AccountLogin.VersionNeverDecreases` | backend/internal/auth/auth.go:414-431 | in every interleaving auth_version never decreases and installed verifiers are never taken back |
| `AccountLogin.UpgradeTakesEffectOnce` | backend/internal/auth/auth.go:414-431 | at most one upgrade takes effect, only over the version 1 verifier the account was registered with |
| `AccountLogin.RecoveryStands` | backend/internal/auth/auth.go:676-683 | whatever logins and upgrades are pending, the verifier a recovery set stays until the next recovery |
| `AccountLogin.AdmittedByLastInstalled` | backend/internal/auth/auth.go:381-409 | a login that reads a version 2 row passes exactly with the key of the verifier installed last; a version 1 row passes exactly the registered password |
| `AccountLogin.SessionsWereProved` | backend/internal/auth/auth.go:433-452 | every open session was opened with the secret of the verifier current when its login read the row |
| `AccountLogin.VerifiersAreEarned` | backend/internal/auth/auth.go:381-431 | the verifier an upgrade installs is the auth key of a login that presented the registered password with it before; a recovery installs its own key |
| `AccountLogin.SessionsAreEarned` | backend/internal/auth/auth.go:433-452 | behind every open session is a login that presented its secret before, and no recovery since it was opened |
| `AccountLogin.HonestLoginCompletes` | backend/internal/auth/auth.go:381-452 | on version 1 the password with an auth key makes that key the verifier and opens a session; on version 2 the key opens one and changes nothing |
| `AccountLogin.AuthService.LoginEmailUser` | backend/internal/auth/auth.go:336-410 | undisturbed: each error exactly when the source gives it, the upgrade written only on version 1, one session on success and no change otherwise |
| `AccountLogin.AuthService.UpgradeToAuthKey` | backend/internal/auth/auth.go:414-431 | writes the verifier only over version 1 |
| `AccountLogin.AuthService.RecoverAccount` | backend/internal/auth/auth.go:653-714 | the new verifier at version 2; of the account's sessions only the new one is left, other accounts keep theirs |
| `RecoveryCodes.SpellingsOfCode` | backend/internal/recovery/recovery.go:291-325 | a text normalises to a generated code if and only if it spells its twelve characters, with dashes, spaces and case anywhere; normalising again changes nothing |
| `RecoveryCodes.NormalizedIffSpelled` | backend/internal/recovery/recovery.go:321-325 | normalising to some text is spelling it out, for all texts |
| `RecoveryCodes.CodesAgreeIff` | backend/internal/recovery/recovery.go:291-305 | two draws give the same code exactly when their first 60 bits agree: only four of the 64 random bits are lost |
| `RecoveryCodes.CodeShape` | backend/internal/recovery/recovery.go:291-305 | a code is the first twelve characters of the base32 text in three groups of four between dashes |
| `RecoveryServices.ComputeCode` | backend/internal/recovery/recovery.go:291-305 | the code computed through the regrouping loop is the one the theorems are about |
| `RecoveryServices.Service.GenerateCodes` | backend/internal/recovery/recovery.go:61-112 | the loop replaces the user's rows by eight unused ones for the codes returned, and touches no other user's |
| `RecoveryServices.Service.ConsumeCode` | backend/internal/recovery/recovery.go:155-225 | undisturbed, marks one unused code of the user that the text spells and changes nothing else, or fails exactly when there is none |
| `RecoveryRace.StepKeepsInvariant` | backend/internal/recovery/recovery.go:61-225 | every read, mark, delete and commit of any requests keeps log, batches and generations in order |
| `RecoveryRace.CodesUsedOnce` | backend/internal/recovery/recovery.go:155-225 | in every interleaving each code is consumed at most once, by its user presenting it, so at most eight consumes succeed per generation |
| `RecoveryRace.EightCodesIff` | backend/internal/recovery/recovery.go:266-289 | a user's stored codes number exactly eight if and only if the last regeneration overlapped no other commit for that user; otherwise at least sixteen |
| `RecoveryRace.OverlapLeavesSixteen` | backend/internal/recovery/recovery.go:266-289 | two regenerations whose deletes both precede both commits leave at least sixteen |
| `RecoveryRace.UsedAndRemaining` | backend/internal/recovery/recovery.go:227-264 | used plus remaining is the stored number, and the used ones are exactly those consumed |
| `RecoveryTraces.ConsumesAreEarned` | backend/internal/recovery/recovery.go:155-225 | behind every successful consume: a regeneration of that user stored the code under that id, and a request read it there with exactly that code before marking it |
| `RecoveryTraces.HonestConsumeSucceeds` | backend/internal/recovery/recovery.go:155-225 | reading and marking a stored code succeeds exactly when it is unused, and changes that row alone |
| `RecoveryTraces.RegenerationReplaces` | backend/internal/recovery/recovery.go:266-289 | undisturbed, a regeneration leaves the user its own eight codes, unused and under their texts, and every other user's rows as they were |

## Left out

- Base32.Base32Decode: ASCII input only; JavaScript's upper-casing and white space beyond ASCII are not modelled.
- Bech32.Bech32Decode: ASCII input only; Go's lower-casing of other letters is not modelled.
- Bech32.BurstDetected: bursts of up to six symbols at any length; the guarantee of BIP-173 for up to four scattered
  errors below 90 characters is about a bound this code does not enforce.
- Csv.ParseCsvRows: characters instead of UTF-16 code units; the header map and the row mappers are index lookups.
- RateLimit.Store.Hit: the remaining time is exact; the source sends it through a floating-point number of seconds.
- RateLimit.RateBound: counts admitted hits; requests let through because the store failed are not among them.
- Challenges.StoresAgreeIff: one clock for replicas and database, so no clock skew; pruning and inserting are separate
  steps, as in the source.
- ChallengeStores.AuthenticateWithNostr: ends at the admission; finding or creating the user and the session row are
  single inserts. The signature check and the JSON of the event are a given answer.
- RecoveryRace.StepKeepsInvariant: row locks are not modelled, which allows more runs than Postgres does; a user's
  first generation at registration is a regeneration like any other.
- AccountLogin.AuthService.LoginEmailUser: emails come normalised; equal answering times are not a functional property.
- AccountLogin.AuthService.RecoverAccount: starts after its recovery code is consumed; the vault it rewrites in the same
  transaction is the recovery step of `SaveProtocol`.
- Folders.StepKeepsForest: each request is one step, so a move racing another between its check and its write is not
  covered; column lengths, timestamps and sharing flags are left out. Moving to the root does not exist: no parent
  means no change.
- FolderServices.FolderService.DeleteFolder: the number of entries in the folder is a parameter, and what deleting
  does to entries is not modelled.
- FolderTrees.GetFolders: the query's order is a parameter; the theorems hold for every order.
- VaultClients.Service.UpdateVault: check and write are one step, and the version is unbounded.
- VaultClients.VaultClient.Unlock: called while locked; network answers are parameters, tokens and signing are left out.
- Random.RandomInt: the generator is a stream of words given by the caller, and may run out where the source waits.
- Passwords.GeneratePassword: the shorter `generatePassword` composes the same pieces; a length above 2^32 is refused,
  by the shuffle's own bound.
- Base64.DecodeInvertsEncode: `btoa` and `atob` are modelled as the platform defines them, not proved.
- VaultSession.SessionTheorem: wiping the key in memory and the text format of envelopes are not modelled.
- `totp` itself, `totpSecondsRemaining`, `EncodeNsec`, `FormatNpubShort`, `normalizeEmail`, `GetCodeStatus`: short
  expressions or single queries around what is modelled.
- The browser contexts, handlers, routers, sharing, tags, attachments, WebAuthn, billing and migrations other than the
  constraints named above.
