# Verification of the trust-chain application

A Dafny model of the trusted application under `ta/`: a table of repositories, each with a chain of
signed blocks and two key lists that decide who may append the next block. Nothing here runs the C
program. The model follows its code branch by branch, including every error return, and proves what
the ledger promises over all runs.

## How the model is built

* `Ledger.dfy` is the state machine: what each command does to the table of repositories and to the
  stored key, as a function of the request and of the results of the interface calls it makes. `Run`
  iterates it over any sequence of commands.
* `TrustChain.dfy`, `KeyLists.dfy`, `BlockRecords.dfy` and the class in `Crypto.dfy` are the program in
  its own form: the 1000-slot array and its counter, structures updated in place, linked lists of
  allocated nodes, buffers written by loops. Each method is proved to do exactly what the state machine
  says. `TrustChain.TrustChain.Serve` carries this over whole runs, so the theorems about `Ledger.Run`
  are theorems about the classes.
* A ghost `Heap` accounts for every allocation: what is allocated is either live or freed, and only live
  objects can be freed. The node structure and its copy of the key are two allocations, as in the C code.
* `PlainTexts.dfy` and `Promises.dfy` say the same a second time and independently: every text written out
  from its format string, every signature as the call of RSA that makes or checks it, every number and every
  refusal code as the protocol has them. They are proved equal to what the state machine does.
* `Invariants`, `Tamper`, `Replay`, `Emission`, `Failures`, `Audit`, `Lineage` and `TeeSignatures` hold the
  theorems about runs; `TextFormat`, `Blocks`, `Messages`, `Hex` and `Pem` those about encodings.

### Environment

SHA-256, RSA, the parsing of PEM keys and base64 are functions of a `Crypto` value, and nothing is assumed
about them except where a theorem says so: `VerifyAcceptsSign` (a signature verifies under the key that
made it) for the TEE signatures, `AcceptsFullLengthOnly` (no accepted key verifies a signature of less than
2048 bits, section 8.2.2 of RFC 8017) for tamper evidence, and the length and alphabet of base64 for PEM. Digests
are 32 bytes and RSA signatures 256 bytes by type. Collision freedom is nowhere assumed, because no
function to 32 bytes has it. The theorems about tampering instead name the texts in question: those of the
two blocks that stand at the same distance from the ends of the emitted and the presented chain
(`Tamper.TextsCollide`).

Every call that can fail (allocation, hashing, opening and generating keys, signing, verifying,
decrypting) has its result as an input of the command, so all theorems hold under every combination of
failures unless they say which ones they exclude. Time stamps are inputs as well. Strings are character
sequences bounded by the size of their C field; the place of the terminating NUL is not modelled.

### Findings

* Genesis carries height 1 while the repository's height stays 0, so the second block carries 1 again
  (`Invariants.HashChain`).
* `access_control` changes the key lists before it hashes and signs. `Failures.LateFailureIff` says
  exactly when a failing command leaves changed lists behind, `Replay.RunAgreesIff` that lists and chains
  agree throughout a run precisely when no command of it does, and `Failures.LateFailureIsReachable` gives
  a run in which one does.
* The hashed text determines every field it shows, also when keys hold colons, between blocks of the two
  shapes that the ledger hands out: founding blocks and blocks with a complete signature
  (`Blocks.SameTextIffSameProjection`). A reader has to insist on these shapes, because the text of a genesis
  block may also read as a block of neither (`Tamper.GenesisHasOtherReading`, and exactly when in
  `Blocks.MistakenIff`). Cutting the text at its colons recovers the fields exactly when the signing key
  shows none (`Tamper.EmittedTextParsesIff`).
* The text shows only 256 characters of keys and signatures (`Blocks.LongKeysAreNotTold`). What the latest
  hash therefore says about who holds which role is stated exactly by `Audit.LatestHashCertifiesAuthority`;
  founders' keys that agree so far are confused (`Audit.LongFoundersAreConfused`).
* A signed request never wears out: it succeeds again whenever its signer is an administrator and its change
  applies (`Failures.OldRequestSucceedsIff`), so a deleted writer comes back with the old grant
  (`Failures.DeletedWriterComesBack`).
* `load_or_generate_key_pair` takes every failure to open the stored key for its absence and overwrites it;
  `TeeSignatures.RunKeepsKeyIff` says exactly which runs keep the key.
* `get_tee_public_key` never succeeds, because it announces a buffer of no capacity
  (`Failures.PublicKeyIsNeverGiven`).
* What `get_latest_hash` signs covers the hash exactly when the nonce has no zero byte
  (`TeeSignatures.LatestTextCoversHashIff`).
* Where code and documents differ, the model follows the code: `pseudocode.md` deletes repositories and
  protects the owner, and the repository's own `README.md` joins signed fields with commas and calls the fields of a block by
  other sizes; the code has neither deletion nor owner protection, and it joins with colons.

## Model

| member | source | states |
|---|---|---|
| `Hex.DecodeEncode` | ta/utils/utils.c:24-59 | decoding undoes encoding on every byte string |
| `Hex.EncodeDecode` | ta/utils/utils.c:24-59 | encoding undoes decoding on every decodable string, up to the case of letters |
| `Hex.ToHexIsHex` | ta/utils/utils.c:24-36 | encoded text consists of hexadecimal digits only |
| `Hex.BytesToHexString` | ta/utils/utils.c:24-28 | the loop writes the encoding of the bytes and leaves the rest of the buffer alone |
| `Hex.HexStringToBytes` | ta/utils/utils.c:39-59 | succeeds exactly on even-length hexadecimal text and then stores the decoded bytes; writes no place beyond the bytes stored before it stops, and asks for no more room than that |
| `Hex.StoredIs` | ta/utils/utils.c:47-55 | the decoder stores exactly the pairs of digits before the first pair that is none |
| `Hex.HexCharToIntIff` | ta/utils/utils.c:31-36 | which character has which of the 16 values, in either case, and that all others have none |
| `TextFormat.SplitJoin` | ta/block/block.c:94-104 | cutting at the first colons inverts joining if and only if no field but the last holds a colon |
| `TextFormat.DecWord` | ta/block/block.c:95 | `%u` of a 32-bit value prints at most ten characters, none a colon |
| `TextFormat.ParseDecDec` | ta/block/block.c:95 | printed numbers read back |
| `Blocks.SerialiseFits` | ta/block/block.c:91-104 | the access text has at most 890 characters and the contribution text at most 687, so `snprintf` into 1024 bytes never cuts |
| `Blocks.ParseSerialise` | ta/block/block.c:86-132 | for any block whose parent and signature show no colon, the text parses back to all shown fields if and only if the shown signing key holds no colon |
| `Blocks.SameTextIffSameProjection` | ta/block/block.c:86-132 | two blocks have equal texts exactly when they show equal fields, whatever colons their keys hold, if both are founding or completely signed; also if neither signing key shows a colon |
| `Blocks.MistakenIff` | ta/block/block.c:86-132 | among all blocks with the text of a founding or completely signed one, exactly those of these shapes show its fields |
| `Blocks.KindsNeverShareText` | ta/block/block.c:94-128 | an access block and a contribution block never have the same text, whatever colons their keys hold |
| `Blocks.LongKeysAreNotTold` | ta/block/block.c:95-104 | keys that agree on 256 characters give the same text |
| `PlainTexts.SerialiseIs` | ta/block/block.c:94-128 | the hashed text, written out field by field with its literal separators and precisions |
| `PlainTexts.PubkeyShown` | ta/block/block.c:95-104 | access blocks that differ in the public key have one text exactly when the keys agree on 256 characters |
| `PlainTexts.SigkeyShown` | ta/block/block.c:94-128 | the same for the signing key of both kinds of block |
| `PlainTexts.SignatureShown` | ta/block/block.c:94-128 | the same for the signature |
| `PlainTexts.LongestBlocks` | ta/block/block.c:91-128 | the bounds 890 and 687 are attained by blocks whose fields are full |
| `PlainTexts.LongestRequests` | ta/trust_chain_ta.c:252-255 | requests whose fields are full have 545 and 86 characters |
| `PlainTexts.RequestsAre` | ta/trust_chain_ta.c:253-411 | the two signed texts, written out with their literal separators |
| `PlainTexts.DecWritten` | ta/block/block.c:95 | each character that `%u` prints is the decimal digit of its place, without leading zeros |
| `PlainTexts.HexWritten` | ta/utils/utils.c:24-28 | each byte is written as the two characters of its value, the higher first |
| `BlockRecords.BaseBlock.Init` | ta/block/block.c:12-39 | every field set, missing strings stored empty, the TEE signature left empty |
| `BlockRecords.AccessBlock.Init` | ta/block/block.c:42-62 | base and own fields of an access block set as given |
| `BlockRecords.ContributionBlock.Init` | ta/block/block.c:65-83 | base and own fields of a contribution block set as given |
| `BlockRecords.AccessBlock.CalculateHash` | ta/block/block.c:86-108 | on success the hexadecimal digest of the block's text as written out in `PlainTexts.BlockText`, otherwise the first failing call's code |
| `BlockRecords.ContributionBlock.CalculateHash` | ta/block/block.c:111-132 | the same for contribution blocks |
| `Messages.AccessTextInjective` | ta/trust_chain_ta.c:253-255 | the signed text of an access request determines repository, operation, role and public key, colons or not |
| `Messages.CommitTextInjective` | ta/trust_chain_ta.c:409-411 | the signed text of a commit request determines repository, operation and commit hash |
| `Messages.AccessTextWhole` | ta/trust_chain_ta.c:253-255 | the 1024-byte buffer never cuts the text of an access request |
| `Messages.CommitTextWhole` | ta/trust_chain_ta.c:409-411 | the 1024-byte buffer never cuts the text of a commit request |
| `Messages.AccessVersusCommitText` | ta/trust_chain_ta.c:253-411 | exactly when the texts of an access request and a commit request coincide |
| `Messages.RequestsNeverShareText` | ta/trust_chain_ta.c:236-411 | the operation checks of the two commands keep their signed texts apart |
| `Crypto.HashData` | ta/utils/utils.c:91-104 | hexadecimal text of the digest, or the failing call's code |
| `Crypto.VerifySignatureCommon` | ta/utils/utils.c:107-161 | success if and only if all calls succeed, the signature is hexadecimal and RSA accepts its bytes for the digest of the text; otherwise the code of the first failure |
| `Crypto.VerifySignature` | ta/utils/utils.c:165-190 | success if and only if the key parses, all calls succeed and the signature is valid under it |
| `Crypto.SignedIsHex` | ta/utils/utils.c:39-59 | a signature that verified holds no colon, and has 512 digits if only signatures as long as the modulus verify |
| `Crypto.LoadKeepsKeyIff` | ta/tee_key_manager/tee_key_manager.c:24-81 | a stored key survives exactly when opening worked, or generating failed, or the new key is the old one |
| `Crypto.SignedDigest` | ta/tee_key_manager/tee_key_manager.c:100-157 | signing the text of a hash signs the digest it was made from, with the key then stored |
| `Crypto.SignThenVerify` | ta/tee_key_manager/tee_key_manager.c:144-190 | what the TEE signed verifies through both hexadecimal codings |
| `Crypto.KeyManager.LoadOrGenerateKeyPair` | ta/tee_key_manager/tee_key_manager.c:24-81 | the stored key, or a generated one that is then stored, or the first failing call's code and the slot untouched |
| `Crypto.KeyManager.SignHashText` | ta/tee_key_manager/tee_key_manager.c:100-157 | slot and result of signing a hash, for every combination of failures |
| `Crypto.KeyManager.SignData` | ta/tee_key_manager/tee_key_manager.c:87-97 | hashing then signing |
| `Crypto.KeyManager.VerifyTeeSignature` | ta/tee_key_manager/tee_key_manager.c:159-200 | success if and only if all calls succeed and the signature is valid under the public half of the key loaded; what becomes of the slot |
| `Crypto.KeyManager.Decrypt` | ta/tee_key_manager/tee_key_manager.c:202-257 | slot and result of decrypting, for every combination of failures; on success the hexadecimal RSA decryption under the key then stored |
| `KeyLists.RemoveFirstAt` | ta/key_list/key_list.c:124-156 | splicing at the first match is removing the first occurrence, and nothing is spliced without a match |
| `KeyLists.CopyKeyString` | ta/key_list/key_list.c:32-40 | a fresh copy of the key, or nothing allocated |
| `KeyLists.CreateKeyNode` | ta/key_list/key_list.c:42-55 | a fresh node with its own copy of the key, or nothing left allocated |
| `KeyLists.FreeKeyNode` | ta/key_list/key_list.c:57-64 | frees the node and its copy, each once |
| `KeyLists.KeyList.Init` | ta/key_list/key_list.c:13-16 | whatever the list held, it is empty and owns nothing but itself |
| `KeyLists.KeyList.KeyExistsInSet` | ta/key_list/key_list.c:68-78 | true exactly for the keys of the list |
| `KeyLists.KeyList.AddKeyToSet` | ta/key_list/key_list.c:80-93 | prepends the key with two fresh allocations, or changes nothing when out of memory; the count is the length modulo 2^32 |
| `KeyLists.KeyList.RemoveKeyFromSet` | ta/key_list/key_list.c:95-119 | removes the first occurrence and frees exactly that node, or reports absence and changes nothing |
| `KeyLists.KeyList.FindAndRemoveKey` | ta/key_list/key_list.c:124-156 | the same removal, absence reported through the flag |
| `KeyLists.KeyList.CleanupKeyList` | ta/key_list/key_list.c:18-30 | frees every node and every copy and nothing else, leaves an empty list |
| `TrustChain.RepoMetadata.AddKey` | ta/trust_chain_ta.c:264-299 | the two lists after OP_ADD, promotion removing before it adds, for every allocation result |
| `TrustChain.RepoMetadata.DeleteKey` | ta/trust_chain_ta.c:300-322 | the two lists after OP_DELETE |
| `TrustChain.RepoMetadata.AccessControl` | ta/trust_chain_ta.c:246-341 | new repository state, stored key and reply are those of `Ledger.AccessStep`; only objects of this repository change |
| `TrustChain.RepoMetadata.Commit` | ta/trust_chain_ta.c:403-450 | new repository state, stored key and reply are those of `Ledger.CommitStep`; the lists are not touched |
| `TrustChain.TrustChain.ValidateAndGetRepo` | ta/trust_chain_ta.c:126-132 | found exactly for identifiers below the counter |
| `TrustChain.TrustChain.CleanupRepoResources` | ta/trust_chain_ta.c:135-151 | frees everything the slot owns, empties it, and leaves the other slots alone |
| `TrustChain.TrustChain.InitRepo` | ta/trust_chain_ta.c:153-220 | either one more repository at the next index and a genesis block with the founder's whole key in both fields, or table, counter and live heap exactly as before, at whatever call it failed |
| `TrustChain.TrustChain.AccessControl` | ta/trust_chain_ta.c:222-342 | the step of the state machine; writes nothing but the named repository's objects |
| `TrustChain.TrustChain.GetLatestHash` | ta/trust_chain_ta.c:344-375 | answers nonce and latest hash with a signature of the stored key on both, up to the first zero byte; no repository changes |
| `TrustChain.TrustChain.Commit` | ta/trust_chain_ta.c:377-451 | the step of the state machine; writes nothing but the named repository's objects |
| `TrustChain.TrustChain.InvokeCommand` | ta/trust_chain_ta.c:103-121 | each of the five commands, and an unknown one, keeps the table sound and does the step of the state machine |
| `TrustChain.TrustChain.GetTeePublicKey` | ta/trust_chain_ta.c:453-496 | the code of the first failing check or call, never success, and nothing changes |
| `TrustChain.TrustChain.Serve` | ta/trust_chain_ta.c:103-121 | every run of commands ends in the state, and gives the replies, that `Ledger.Run` and `Ledger.Replies` say; no allocation is lost from the account of the heap |
| `TrustChain.TrustChain.OwnedOnce` | ta/key_list/key_list.c:18-64 | each live heap object belongs to exactly one repository, there to at most one of its lists, and has not been freed |
| `Invariants.HashChain` | ta/trust_chain_ta.c:178-213 | in every reachable state: hash links, latest hash, heights modulo 2^32, and the two blocks of height 1 |
| `Invariants.EveryBlockIsSigned` | ta/trust_chain_ta.c:252-261 | in every reachable state, even after late failures, the signature of every later block verifies over the request rebuilt from the block's own fields and the repository's identifier, and fills its field |
| `Invariants.ChainsOnlyGrow` | ta/trust_chain_ta.c:325-448 | over any run every chain is extended at its end only |
| `Invariants.RolesAreExclusive` | ta/trust_chain_ta.c:264-322 | in every reachable state no key is listed twice within or across the two lists, even after late failures |
| `Invariants.StepKeepsInvariant` | ta/trust_chain_ta.c:153-451 | every command, failing or not, keeps both invariants of every repository |
| `Invariants.ReplyIsNewestBlock` | ta/trust_chain_ta.c:215-447 | the block handed out is the one appended; no other reply appends one |
| `Invariants.IdsIssuedInOrder` | ta/trust_chain_ta.c:162-218 | identifiers are issued 0, 1, 2, ... once each, and at most 1000 repositories exist |
| `Promises.InitPromise` | ta/trust_chain_ta.c:178-218 | every field of the genesis block handed out, the TEE signature on its text, and the whole new repository |
| `Promises.InitCode` | ta/trust_chain_ta.c:162-212 | the code of every way to fail, and that at most a new key is left behind |
| `Promises.AccessPromise` | ta/trust_chain_ta.c:236-341 | what a success means: an administrator signed, RSA accepted, the lists changed as the numbers 0, 1 and 1, 2 say, and the block and the repository are these |
| `Promises.AccessCode` | ta/trust_chain_ta.c:236-341 | the guards in order, each with the code that it refuses with, and success exactly when all are passed |
| `Promises.AccessAftermath` | ta/trust_chain_ta.c:264-334 | the exact state after every failure, the late ones included |
| `Promises.CommitPromise` | ta/trust_chain_ta.c:392-450 | what a success means: a listed key signed, RSA accepted, the block and the repository are these, and the reply is the RSA decryption of the attached text |
| `Promises.CommitCode` | ta/trust_chain_ta.c:392-450 | the guards in order, each with the code that it refuses with, and success exactly when all are passed |
| `Promises.CommitAftermath` | ta/trust_chain_ta.c:392-439 | the exact state after every failure: at most a new key |
| `Promises.ReleasedKeyIsTheClients` | ta/tee_key_manager/tee_key_manager.c:202-250 | a key that a client encrypted to the stored key comes back, if decrypting undoes encrypting |
| `Promises.UnverifiedIsRefused` | ta/trust_chain_ta.c:258-417 | a request whose signature RSA does not accept fails and changes nothing |
| `Promises.LatestPromise` | ta/trust_chain_ta.c:364-369 | the reply carries the nonce asked with and the latest hash, and signs their bytes up to the first zero |
| `Promises.LatestCode` | ta/trust_chain_ta.c:359-374 | the code of every way to fail; the repositories stay |
| `Promises.PublicKeyCode` | ta/trust_chain_ta.c:453-496 | the code of every way to fail, for a public key and for what is no command |
| `Promises.NoFailureSaysSuccess` | ta/trust_chain_ta.c:103-121 | no failing command reports success |
| `Promises.EveryRequestVerified` | ta/utils/utils.c:107-190 | in every reachable state the signing key of each later block parses, and RSA accepts its signature's bytes for the digest of the request, written out |
| `Promises.EveryHashIsOfTheText` | ta/block/block.c:86-132 | in every reachable state parents and latest hash are the digests of the written-out texts |
| `Promises.LatestAnswerVerifies` | ta/trust_chain_ta.c:364-369 | in every reachable state RSA accepts the answer under the stored key for the nonce's four bytes and the hash of the newest block, unless a byte of the nonce is zero |
| `Promises.SealVerifies` | ta/tee_key_manager/tee_key_manager.c:100-157 | the TEE signature of a block handed out is accepted for the digest of its text |
| `Tamper.HashPinsChain` | ta/block/block.c:86-132 | two well-linked chains of any lengths, with any keys, that start with a founding block and go on with completely signed ones agree on every shown field if and only if their final hashes are equal and no two of their texts at the same distance from the end are a collision |
| `Tamper.LatestHashPinsHistory` | ta/trust_chain_ta.c:325-369 | such a chain is the emitted one, on every shown field, if and only if it ends in the hash that `get_latest_hash` answers and none of its texts collides with the emitted text at the same distance from the end |
| `Tamper.AgreeingChainsShareHash` | ta/block/block.c:86-132 | the converse: chains that agree end in the same hash and their texts do not collide |
| `Tamper.EmittedTextParsesIff` | ta/block/block.c:86-132 | in every reachable state the text of an emitted block parses back to all shown fields if and only if its signing key shows no colon |
| `Tamper.GenesisTextIff` | ta/trust_chain_ta.c:199-207 | two genesis blocks have one text exactly when their times and the first 256 characters of their founders' keys are equal |
| `Tamper.GenesisHasOtherReading` | ta/trust_chain_ta.c:199-207 | a founder's key for which the emitted genesis block has the text of a block with another signing key, of neither emitted shape |
| `Audit.LatestHashCertifiesAuthority` | ta/trust_chain_ta.c:194-369 | after a run without late failures, a chain that the offline check accepts, that ends in the latest hash and whose texts do not collide with the emitted ones at the same distance from the end confers the same rights as the emitted one at every block if and only if keys granted at one place are told apart by their first 256 characters, and then replays to the repository's own two lists, in order |
| `Audit.KnownKeysCertifyAuthority` | ta/trust_chain_ta.c:194-369 | it does so for an auditor who knows only that all granted keys are among keys that differ within 256 characters |
| `Audit.SameHistoryIff` | ta/trust_chain_ta.c:264-322 | two accepted chains that agree on all shown fields confer the same rights at every block if and only if their granted keys are told apart so |
| `Audit.AppliedTells` | ta/trust_chain_ta.c:264-322 | two keys that an access block could apply to have the same effect on the lists exactly when they are equal |
| `Audit.LongFoundersAreConfused` | ta/block/block.c:95-104 | two founders' keys that agree on 256 characters: the wrong genesis block is accepted under the latest hash and names the wrong administrator |
| `Replay.ChainDeterminesAuthority` | ta/trust_chain_ta.c:194-339 | after any run without late failures an offline replay accepts every emitted block, signatures and signing rights included, and yields both lists in order |
| `Replay.StepAgreesIff` | ta/trust_chain_ta.c:263-339 | a command keeps all lists in agreement with their chains if and only if it does not fail late |
| `Replay.RunAgreesIff` | ta/trust_chain_ta.c:263-339 | over any run, lists and chains agree at every moment if and only if no command fails late |
| `Replay.AppliedIsChange` | ta/trust_chain_ta.c:264-322 | on exclusive lists the in-memory update is the set-like one of the offline check, refusals included |
| `Emission.AcceptedChainsAreEmitted` | ta/trust_chain_ta.c:153-451 | every chain the offline check accepts is emitted, up to TEE signatures, by requesting its blocks in turn, with any decodable key attached and any TEE key, leaving other repositories alone |
| `Failures.LateFailureIff` | ta/trust_chain_ta.c:264-334 | exactly when a failing `access_control` leaves changed lists: promotion out of memory, or a failed hash or signature after an applicable change |
| `Failures.LateFailureIsReachable` | ta/trust_chain_ta.c:282-334 | a two-command run after which the lists hold a writer whom the chain does not know |
| `Failures.InitSucceedsIff` | ta/trust_chain_ta.c:166-219 | succeeds exactly when there is room in the table and no allocation, hash or signing call fails |
| `Failures.AccessSucceedsIff` | ta/trust_chain_ta.c:236-341 | succeeds exactly for a validly signed request of an administrator of an existing repository that asks for an applicable change (or a meaningless role), with room for it and no failing call |
| `Failures.OldRequestSucceedsIff` | ta/trust_chain_ta.c:247-261 | a request that succeeded once succeeds again in any state exactly when its signer is an administrator, its change applies and no call fails |
| `Failures.DeletedWriterComesBack` | ta/trust_chain_ta.c:253-322 | after a grant and its deletion in any reachable state, the old grant handed in once more restores the writer |
| `Failures.CommitSucceedsIff` | ta/trust_chain_ta.c:392-450 | succeeds exactly for a validly signed request of an administrator or writer of an existing repository, with a hexadecimal attached key and no failing call |
| `Failures.PublicKeyIsNeverGiven` | ta/trust_chain_ta.c:461-490 | the command never succeeds and reports a short buffer when every call succeeds |
| `Failures.FailureLeavesChains` | ta/trust_chain_ta.c:230-450 | no failing command touches a chain, hash or height; only `access_control` can leave changed lists, on its own repository |
| `Failures.OthersUntouched` | ta/trust_chain_ta.c:126-451 | a repository that no command of a run names is the same at its end |
| `Failures.SealSucceedsIff` | ta/trust_chain_ta.c:329-334 | sealing a block succeeds exactly when none of the calls behind it fails |
| `Lineage.EveryRoleHasLineage` | ta/trust_chain_ta.c:195-295 | every key that holds a role is reached from the founder by grants of the administrator's role and, for a writer, one last grant; each command gave a role not held before, was validly signed by the administrator the steps before lead to, and that key had kept its role from its own step on |
| `Lineage.LeadsInOrder` | ta/trust_chain_ta.c:247-295 | the grants of a lineage lie one after the other in time |
| `Lineage.NoAdminsIsForever` | ta/trust_chain_ta.c:247-406 | without administrators: lists fixed, no `access_control` succeeds, only the remaining writers' contributions are appended; without writers nothing changes |
| `TeeSignatures.EmittedBlocksVerify` | ta/tee_key_manager/tee_key_manager.c:100-200 | at the end of any run every block handed out in it is still in the chain of the repository that its command created or named; the key it was signed with is still stored exactly when the last load since that overwrote the key, if any, wrote the same, and if so, verifying its TEE signature succeeds exactly when none of the verification's own calls fails |
| `TeeSignatures.FaithfulRunsVerify` | ta/tee_key_manager/tee_key_manager.c:24-200 | if from the step that signed it on opening the stored key never fails, that signature verifies whenever no call fails |
| `TeeSignatures.RunKeepsKeyIff` | ta/tee_key_manager/tee_key_manager.c:24-81 | over any run a stored key is the same at the end exactly when the last load that overwrote it, if any, wrote the same key |
| `TeeSignatures.RunKeepsSigned` | ta/tee_key_manager/tee_key_manager.c:24-81 | if opening the stored key never fails, a stored key never changes and all blocks are signed with it |
| `TeeSignatures.FailedOpenReplacesKey` | ta/tee_key_manager/tee_key_manager.c:35-68 | one failed open replaces the stored key |
| `TeeSignatures.LatestTextCoversHashIff` | ta/trust_chain_ta.c:365-369 | the signed text depends on the hash exactly when no byte of the nonce is zero |
| `TeeSignatures.LatestTextInjective` | ta/trust_chain_ta.c:365-369 | between such nonces the text determines nonce and hash |
| `Pem.WritePem` | ta/utils/utils.c:390-430 | for every capacity: header, wrapped base64, footer and final NUL within the capacity and nothing beyond; the returned length counts the characters; short buffers reported with the size wanted |
| `Pem.PublicKeyObjToPem` | ta/utils/utils.c:326-430 | the first failing step's code and an untouched buffer, or the PEM text |
| `Pem.WriteLines` | ta/utils/utils.c:415-420 | the loop writes the text in lines |
| `Pem.WrapLines` | ta/utils/utils.c:415-420 | line breaks stand after every 64 characters and at the end, and nowhere else (section 2 of RFC 7468) |
| `Pem.UnwrapWrap` | ta/utils/utils.c:415-420 | deleting the line breaks gives the base64 text back |
| `Pem.EstimateSufficesIff` | ta/utils/utils.c:394 | the size estimate suffices exactly up to 1488 encoded bytes, so always for the 1024-byte buffer |

## Left out

- The host program `host/main.c`: sockets, HTTP, JSON and threads.
- The algorithms behind the TEE and mbedTLS interfaces, and what happens inside `public_key_pem_to_obj` before a key is parsed; they are functions and results given from outside.
- How mbedTLS rebuilds and DER-encodes a public key; the conversion takes the encoding and the results of these calls as inputs.
- The place of the NUL terminators in the 64-byte hash and 512-byte signature fields, structure padding, and the size of the decryption scratch buffers.
- Output buffers of commands that fail: replies of failing commands carry the code only.
- The entry points that open and close sessions, logging, and the build files.
- Reading freed memory: the account of the heap rules out double frees and leaks, not reads through a stale pointer.
- Hex.BytesToHexString: does not write the NUL that `snprintf` puts after each pair, because NUL placement is outside the model.
- Crypto.KeyManager.Decrypt: takes exactly the encrypted text of which the decoder stores at most 256 bytes before it stops; any other text, of even length with more than 256 leading pairs of digits, does not fit the buffer of ta/tee_key_manager/tee_key_manager.c:207, and what the C code then does is undefined.
- TrustChain.RepoMetadata.Commit: the attached key is bounded in the same way, because `commit` passes it on whatever its length (ta/trust_chain_ta.c:434).
- KeyLists.KeyList.AddKeyToSet: the key is bounded by its C field, since every caller copies it out of one.
- TrustChain.TrustChain.InvokeCommand: unknown commands and wrong parameter types are one constructor, because all return the same code before doing anything.
- TeeSignatures.LatestTextCoversHashIff: takes the word of the nonce in little-endian order and no bytes after the hash, as on the ARM target.
