# XYChat protocol model

A Dafny model of the stateful protocols of XYChat, a messenger with end-to-end encrypted private and group chat, with proofs about every run of them. `dafny verify dfyconfig.toml` checks the whole project.

| module | what it models |
|---|---|
| `GroupE2eeCrypto` | the sender-key ratchet: encrypting, and decrypting with or without a cache of skipped message keys |
| `GroupDelivery` | one sender, one receiver and any sequence of deliveries between them: what comes out, how often, and when everything does |
| `GroupInbox` | the same receivers kept in the client's two key tables, any number of senders, own sends, and leaving a group interleaved |
| `SenderKeyStore` | the client's own sender keys, in memory and stored, over sends, rotations, lost writes, restarts and its own distributions coming back |
| `PairwiseCrypto` | the private-chat envelope: one entry per device bundle plus the sender's own copy |
| `PrekeyStore`, `PrekeyRuns` | identity keys and one-time prekeys on the server: registering, claiming, consuming, and all runs of these |
| `MessageTable`, `PrivateSend`, `PrivateSendRuns` | the message rows with their idempotency index, the private send handler as one step, and all runs of sends, edits, deletions and prekey steps |
| `ConcurrentSend` | concurrent private sends whose entries are validated one by one before the transaction |
| `IdempotentSend` | concurrent handlers of the same client message, one SQL statement at a time: group sends statement by statement, private sends in a transaction that pins what it sees |
| `SyncEvents`, `SyncRuns` | the account event log with retention and watermark, the paging client, and all interleavings of appends, the three statements of each prune, and the two of each page request |
| `PacketCodec` | the framed byte stream: encoding, the buffer cut in place, and the drain loop |
| `NonceCache` | the replay cache and the timestamp check in front of it |
| `RateWindow` | the fixed rate window |
| `GroupMembers` | creating a group, inviting, leaving and kicking |

Code that changes state in place is a class. Each of its methods is proved equal to a function on values, and the theorems about whole runs are stated for that function. `Collections`, `Wrappers` and `SymbolicCrypto` hold what the modules share.

## Assumptions

- Cryptography is symbolic: a ciphertext opens under the key it was sealed with and no other, a signature verifies only under its signer and over its own bytes, key agreement is symmetric, and the secrets and nonces that are drawn come in as parameters. A delivered group message may be anything at all except that no one else can produce a signature of the sender (`GroupDelivery.Unforged`).
- Each server request is one atomic step, except that in `IdempotentSend` each statement of a handler is a step of its own, where a group send that finds somebody else writing waits until it is its turn; that in `ConcurrentSend` each validation of a private send is one, and its transaction another; and that in `SyncRuns` a page request is two. A prune is no request: its look-up, its delete and the raise of the watermark are three steps, and there is one prune at a time.
- Clocks are parameters. They never go backwards where a theorem says `ClockForward` or `NonDecreasing`; the event log needs no such condition. The clock is read as often as in the code: twice for the replay check and for a prune, and for a claim of prekeys once for the time-outs and once for each device.
- SQL writes succeed, except a message insert in `IdempotentSend`, and the writes of a client's own sender key, whose failure is a case in `SenderKeyStore`. A store that is closed is one whose writes are all lost.

## Where the code does less, or more, than its comments say

- The rate window admits at most `2 * maxCount - 1` calls in any window, one fewer than twice the limit, and for windows of two seconds or more that many can happen (`RateWindow.AtMostTwiceTheLimit`, `RateWindow.BoundIsReached`).
- In every run a client has a gap if and only if, since its last full resync, some page passed over an event of its own that had been deleted (`SyncRuns.GaplessExactly`). That has one of four causes (`SyncRuns.SkipHasACause`), and each can happen; with prunes in one piece and none during a request only the first is left (`SyncRuns.InOnePieceIsCareful`):
  - A client that has never synchronised (cursor 0) skips the watermark check. Its first page decides: it misses nothing if and only if none of its events up to the end of that page had been deleted (`SyncRuns.FirstPageDecides`, `SyncRuns.FirstClientMissesPruned`).
  - A prune evaluates the current time once for the watermark (Chat-Server/database/DatabaseManager.cpp:1698) and again for the delete (line 1710). An event above that watermark that expires in between is deleted, and no client is told (`SyncRuns.StepKeepsKeptExactly`, `SyncRuns.LateDeleteSkips`).
  - A prune deletes first (line 1709) and raises the watermark afterwards (line 1719), with no transaction around the two. A client below the new watermark whose request reads the watermark in between is not told (`SyncRuns.EarlyPageSkips`).
  - A request reads the watermark first (Chat-Server/core/RequestHandler.cpp:1118) and the events afterwards (line 1134), with no transaction either. A client is not told of what a prune deletes in between (`SyncRuns.OvertakenPageSkips`).
- A private send fails if and only if, between its look-up inside the transaction and its insert, anything was committed by anyone, or somebody else was writing at the insert (`IdempotentSend.PrivateSendFailsExactly`, `IdempotentSend.CommitBetweenFails`). The transaction begins deferred (Chat-Server/core/RequestHandler.cpp:876), so the look-up pins a snapshot that the insert cannot be upgraded from, and the second look-up sees the same snapshot. A group send never fails that way (`IdempotentSend.RefusedInsertIsAnswered`).
- The replay check reads the clock for the timestamp (Chat-Server/core/RequestHandler.cpp:2348) and again for the nonce (Chat-Server/core/NonceCache.cpp:19). A nonce has to live twice the tolerance and the time between the two readings, so with 600 and 300 seconds some request is accepted twice as soon as one second passes between them (`NonceCache.ReplayExactlyWhenShort`).
- Once the replay cache evicts, half a lifetime has to cover the tolerance, that time, and the seconds the timestamp was ahead of the server clock. With 600 and 300 seconds one second of either is enough for some request to be accepted twice, for every size limit (`NonceCache.ReplayExactlyWhenAhead`).
- A stored key row written by the receiving side has no private key, so after a restart the client cannot send until it rotates (`SenderKeyStore.RestartAfterReceiveCannotSend`).
- No two group messages under one key share an iteration as long as the write of every send succeeds (`SenderKeyStore.NoIterationEmittedTwice`). Over every run, whichever writes are lost, an iteration is emitted twice if and only if a message is sent under a key that was loaded, after a restart or a removal, when the last message sent under it had lost its write (`SenderKeyStore.RepeatsExactly`). So a lost write that a later send makes good before that does no harm (`SenderKeyStore.MadeGoodDoesNotRepeat`), nor do any to a store that never opened (`SenderKeyStore.UnopenedStoreNeverRepeats`), while a restart right after a lost write repeats if and only if the group's latest row was a usable one of that key (`SenderKeyStore.LostWriteRepeatsExactly`).
- A sender goes on past iteration 100000000 while no receiver decodes what it then sends; up to there the store loses nothing that the ratchet itself would decrypt (`GroupInbox.GenuineGetsThrough`, `GroupInbox.PermutationShownInFull`).
- A registration that is refused on account of its prekeys has by then stored the identity key and, if that is another one than before, deleted the old prekeys (`PrekeyStore.RegisteredExactly`).
- Processing a key distribution again winds a receiver back to the seed. After any run in which no key was installed again after something was read under it, each message read under the key can then be read again if and only if its iteration is at most 2000, and some can if and only if something has been read (`GroupInbox.ReinstallReplays`, `GroupInbox.ReinstallReplaysExactly`). A peer's entry costs the prekey it is sealed to (Chat-Client/core/NetworkManager.cpp:1782-1786), so this takes a second distribution of the same key that is sealed to a further prekey; the self copy of an own distribution costs none.
- The entries of a private send are validated before its transaction (Chat-Server/core/RequestHandler.cpp:849 and 876). Two stored messages reference one prekey if and only if the second one's handler had validated it before the first one's transaction, or its claim had timed out before that transaction (`ConcurrentSend.ReferencedTwiceExactly`). Either can happen after any run with a claimed prekey (`ConcurrentSend.OverlapReferencesTwice`, `ConcurrentSend.TimeOutReferencesTwice`); with requests atomic neither can.
- Editing a private message neither validates nor uses up prekeys, so prekeys are used once only by messages that were not edited (`PrivateSendRuns.EditMayReferenceAgain`, `PrivateSendRuns.SomeRunReferencesAgain`).
- An empty device id is stored as NULL and defeats the idempotency key (`IdempotentSend.SecondSendReusesIffDeviceNamed`).

## Model

| member | source | states |
|---|---|---|
| GroupE2eeCrypto.GroupSender.EncryptMessage | CommonModule/encryption/GroupE2eeCrypto.cpp:222-263 | the new key and the message are those of `Encrypt`, including the failures that leave the chain one step further |
| GroupE2eeCrypto.EncryptsExactly | CommonModule/encryption/GroupE2eeCrypto.cpp:222-263 | the exact condition for a message to come out, and that every attempt with a text under a valid key moves the chain on by one step, a failed one too |
| GroupE2eeCrypto.GroupReceiver.DecryptMessage | CommonModule/encryption/GroupE2eeCrypto.cpp:265-317 | the new state and the plaintext are those of `Decrypt`; a rejected message changes nothing |
| GroupE2eeCrypto.GroupReceiver.DecryptWithCachedKey | CommonModule/encryption/GroupE2eeCrypto.cpp:281-308 | a cached key opens its message, and is removed only once both decryption and signature have passed |
| GroupE2eeCrypto.GroupReceiver.DecryptByRatcheting | CommonModule/encryption/GroupE2eeCrypto.cpp:319-388 | chain, iteration and cache are committed together, and only for an authenticated message |
| GroupE2eeCrypto.GroupReceiver.FastForward | CommonModule/encryption/GroupE2eeCrypto.cpp:319-348 | the ratchet loop ends on the chain key of the target, with the key of every iteration strictly between set aside |
| GroupE2eeCrypto.GroupReceiver.EvictOldest | CommonModule/encryption/GroupE2eeCrypto.cpp:378-385 | the capacity loop leaves `Newest` of the cache |
| GroupE2eeCrypto.NewestKeepsTheLargest | CommonModule/encryption/GroupE2eeCrypto.cpp:378-385 | eviction keeps exactly the thousand largest iterations with their keys |
| GroupDelivery.SentShape | CommonModule/encryption/GroupE2eeCrypto.cpp:222-263 | message `j` is sealed under the message key of its own iteration of the seed's chain and signed by the sender |
| GroupDelivery.SentExactly | CommonModule/encryption/GroupE2eeCrypto.cpp:222-263 | an attempt emits a message if and only if it has a text and a nonce, under the sender's key id and the number of texts there have been |
| GroupDelivery.ChainCountsAttempts | CommonModule/encryption/GroupE2eeCrypto.cpp:236-257 | the chain has moved once for each attempt with a text, whether or not a message came of it |
| GroupDelivery.SentIterationsDiffer | CommonModule/encryption/GroupE2eeCrypto.cpp:236-257 | two emitted messages have the same iteration only if they are the same one |
| GroupDelivery.DeliveryEffect | CommonModule/encryption/GroupE2eeCrypto.cpp:281-386 | a delivery to a reachable state changes nothing, or uses up one cached key, or moves the chain to its iteration and leaves the newest of the old and the jumped-over keys, each the right one |
| GroupDelivery.ReceiverOnChain | CommonModule/encryption/GroupE2eeCrypto.cpp:319-386 | in every reachable state the chain key is the seed ratcheted `iteration` times and each cached entry lies behind it and holds its own message key |
| GroupDelivery.AcceptedIsSealed | CommonModule/encryption/GroupE2eeCrypto.cpp:285-372 | whatever is accepted is the plaintext sealed under the message key of the iteration it claims, and signed by the sender |
| GroupDelivery.OnlySentIsOutput | CommonModule/encryption/GroupE2eeCrypto.cpp:265-388 | over any deliveries, only sent plaintexts come out, under the iteration they were sent at |
| GroupDelivery.OutputAtMostOnce | CommonModule/encryption/GroupE2eeCrypto.cpp:281-386 | over any deliveries, no sent plaintext comes out twice |
| GroupDelivery.CachedRefinesStrict | CommonModule/encryption/GroupE2eeCrypto.h:78-92 | with and without the cache the receiver has the same chain key and iteration after every delivery, and the cache loses no message the strict receiver accepts |
| GroupDelivery.FittingStep | CommonModule/encryption/GroupE2eeCrypto.cpp:314-386 | an accepted delivery leaves exactly the keys still outstanding if and only if it keeps within the two limits |
| GroupDelivery.TolerableOrderIsDecrypted | CommonModule/encryption/GroupE2eeCrypto.cpp:281-386 | any order without duplicates that keeps within the two limits is decrypted in full |
| GroupDelivery.EvictedIsRefused | CommonModule/encryption/GroupE2eeCrypto.cpp:378-385 | a message whose key was evicted is refused when it arrives |
| GroupDelivery.FullDecryptionNeedsTolerableOrder | CommonModule/encryption/GroupE2eeCrypto.h:27-34 | an order that is decrypted in full kept within the two limits throughout |
| GroupDelivery.EmittedIterations | CommonModule/encryption/GroupE2eeCrypto.cpp:222-263 | a sender whose nonces are all drawn numbers its messages 1, 2, 3 and so on |
| GroupDelivery.PermutationDecryptedInFull | CommonModule/encryption/GroupE2eeCrypto.cpp:265-388 | a permutation of the sent messages is decrypted in full, each to its own plaintext, if and only if it keeps within the jump limit and the cache limit; the receiver then holds the sender's chain key and iteration and an empty cache |
| GroupInbox.Inbox.InstallSenderKey | Chat-Client/core/NetworkManager.cpp:1842-1846 | a distribution sets the key row to its seed at iteration 0 and leaves skipped keys and other rows alone |
| GroupInbox.Inbox.DecryptGroupMessage | Chat-Client/core/NetworkManager.cpp:1886-1978 | tables and plaintext after one group message are those of `Receive`: load, decrypt, write back only on success; `GroupInbox.GenuineGetsThrough` and `GroupInbox.ShownIsWellFormed` say which messages get past the decoding |
| GroupInbox.ShownIsWellFormed | CommonModule/encryption/GroupE2eeCrypto.cpp:506-534 | what is shown had an iteration from 1 to 100000000, a nonce of 12 bytes, a ciphertext of at least 16 and a signature of 64 under the stored key |
| GroupInbox.GenuineGetsThrough | CommonModule/encryption/GroupE2eeCrypto.cpp:528-529 | a message as it was sent fares in the store as the same message fares in memory, if and only if its iteration is at most 100000000; beyond that it is lost |
| GroupInbox.StoreRefinesReceiver | Chat-Client/core/NetworkManager.cpp:1907-1976 | however channels interleave, with groups left and keys installed again before anything was read, the tables of another device's channel hold what an in-memory receiver of that channel alone would hold |
| GroupInbox.ShownIsOutput | Chat-Client/core/NetworkManager.cpp:1932-1949 | what is shown for a message is what that receiver outputs for it |
| GroupInbox.TolerableOrderIsShown | Chat-Client/core/NetworkManager.cpp:1886-1978 | in any regular run, however channels interleave, the messages of another device's channel that arrive as they were sent, each once and in an order within the two limits, are all shown, each with its own plaintext |
| GroupInbox.PermutationShownInFull | Chat-Client/core/NetworkManager.cpp:1886-1978 | if all the sender emitted arrives once each, in any order and among any other traffic, all of it is shown if and only if the order keeps within the two limits and no iteration is above 100000000 |
| GroupInbox.Inbox.SaveSentKey | Chat-Client/core/NetworkManager.cpp:1873-1879 | an own send writes the stepped key into its row and leaves skipped keys and other rows alone |
| GroupInbox.Inbox.RemoveSenderKeysForGroup | Chat-Client/core/LocalStore.cpp:1143-1177 | both tables lose every row of the group and no other |
| GroupInbox.RunIsHealthy | Chat-Client/core/NetworkManager.cpp:1886-1978 | over any regular run, own sends and leaving included, what is stored for a channel is on its chain, and nothing is cached before something was read |
| GroupInbox.ReadIsPast | Chat-Client/core/NetworkManager.cpp:1971-1976 | once a message was read, no later table of a regular run holds a key for its iteration |
| GroupInbox.ShownAtMostOnce | Chat-Client/core/NetworkManager.cpp:1886-1978 | over any regular run through the store, own sends and leaving included, only sent plaintexts are shown, under the iteration they were sent at, each at most once |
| GroupInbox.ReinstallReplays | Chat-Client/core/NetworkManager.cpp:1842-1846 | after any regular run, installing the key again makes a message read before readable again, to the same text, if and only if its iteration is within one jump of the start |
| GroupInbox.ReinstallReplaysExactly | Chat-Client/core/NetworkManager.cpp:1842-1846 | after any regular run, installing the key again makes some message readable twice if and only if something has been read under it |
| SenderKeyStore.GroupKeys.SaveSenderKey | Chat-Client/core/LocalStore.cpp:1018-1056 | insert or replace: `Save` of the rows, of which `SenderKeyStore.SaveReplacesOneRow` says what goes and what stays |
| SenderKeyStore.SaveReplacesOneRow | Chat-Client/core/LocalStore.cpp:1029-1056 | a save replaces the row of its group and key id and leaves all others; the saved row is its group's latest, and the latest row of every other group is as before |
| SenderKeyStore.GroupKeys.LatestSenderKey | Chat-Client/core/LocalStore.cpp:1098-1119 | finds the last written row of the group |
| SenderKeyStore.GroupKeys.EnsureGroupSenderKey | Chat-Client/core/NetworkManager.cpp:1550-1592 | the key in memory, else the latest stored one if all three of its keys are there, else none |
| SenderKeyStore.GroupKeys.EncryptGroupMessage | Chat-Client/core/NetworkManager.cpp:1855-1884 | memory and table hold the stepped key after a send, and are unchanged by a failed one |
| SenderKeyStore.StepKeepsSound | Chat-Client/core/NetworkManager.cpp:1550-1592 | every step that sends no message under a key that is behind keeps each key in memory and in the table on its own chain, with all its iterations emitted, and the emitted messages distinct |
| SenderKeyStore.RepeatsWhenBehind | Chat-Client/core/NetworkManager.cpp:1855-1884 | over every run two messages share key id, iteration and message key if and only if some message was sent under a key that is behind what was sent under it |
| SenderKeyStore.BehindExactlyWhenLost | Chat-Client/core/LocalStore.cpp:1018-1119 | as long as nothing was repeated, a stored key is behind if and only if the last message sent under it lost its write, whatever receiving wrote |
| SenderKeyStore.RepeatsExactly | Chat-Client/core/NetworkManager.cpp:1855-1884 | over every run, whichever writes are lost, two messages share key id, iteration and message key if and only if one was sent under a key loaded when the last message sent under it had lost its write |
| SenderKeyStore.NextSendRepeatsExactly | Chat-Client/core/NetworkManager.cpp:1855-1884 | as long as nothing was repeated, the next message repeats if and only if its key is one so loaded, or is now loaded from such a row |
| SenderKeyStore.NoIterationEmittedTwice | Chat-Client/core/NetworkManager.cpp:1855-1884 | if the write of every send succeeds, then over any run of sends, rotations, restarts and own distributions coming back no two messages share key id and iteration, nor a message key |
| SenderKeyStore.UnopenedStoreNeverRepeats | Chat-Client/core/NetworkManager.cpp:1564-1590 | nor do they if nothing is ever written |
| SenderKeyStore.RestartAfterSendGoesOn | Chat-Client/core/NetworkManager.cpp:1872-1880 | a restart after a send loads exactly the key the send left in memory |
| SenderKeyStore.RestartAfterReceiveCannotSend | Chat-Client/core/NetworkManager.cpp:1842-1846 | after a restart a row written by the receiving side cannot be sent with |
| SenderKeyStore.RestartLoadsExactly | Chat-Client/core/NetworkManager.cpp:1564-1590 | after a restart there is a key to send with if and only if the group's latest row has all three keys, and it is the key of that row |
| SenderKeyStore.OtherGroupsDoNotDisturb | Chat-Client/core/NetworkManager.cpp:1550-1592 | over any run of steps in other groups, the key this group sends with next, with a restart in between or without, and its stored rows stay as they were |
| SenderKeyStore.GoneFromGroup | Chat-Client/core/LocalStore.cpp:1143-1177 | leaving takes every row of the group and the key in memory, removal only the key in memory; rows of other groups stay |
| SenderKeyStore.LostWriteRepeatsExactly | Chat-Client/core/NetworkManager.cpp:1873-1880 | after any run that repeated nothing and left no lost write in the group, a send whose write is lost, a restart and another send repeat an iteration if and only if the latest row was a usable one of the key sent with |
| SenderKeyStore.MadeGoodDoesNotRepeat | Chat-Client/core/NetworkManager.cpp:1873-1880 | after any such run, a lost write followed by a written one, a restart and another send repeat nothing |
| SenderKeyStore.LostWriteRepeatsIteration | Chat-Client/core/NetworkManager.cpp:1873-1880 | in every group, after any run that repeated nothing, a fresh key that is written and then sent with under a lost write comes to a repeat |
| PairwiseCrypto.Device.Encrypt | Chat-Client/core/NetworkManager.cpp:1286-1373 | the envelope is that of `EncryptForUser`: one entry per bundle or failure, and the sender's copy when it can be made |
| PairwiseCrypto.EncryptsExactly | Chat-Client/core/NetworkManager.cpp:1290-1371 | there is an envelope if and only if every bundle can be sealed for and there is a bundle or an own copy; it has one entry for each bundle, under its device and prekey id, and then the copy under prekey id 0 |
| PairwiseCrypto.Device.DecryptIncomingContent | Chat-Client/core/NetworkManager.cpp:1376-1447 | state and result are those of `DecryptIncoming`: entries tried in order, the first that opens wins |
| PairwiseCrypto.IncomingContent | Chat-Client/core/NetworkManager.cpp:1376-1447 | legacy text comes back as it is; an envelope with a malformed entry, or none to open, is undecryptable and costs nothing, and one that is read costs at most one prekey |
| PairwiseCrypto.Device.DecryptEntry | Chat-Client/core/NetworkManager.cpp:1391-1437 | an entry is tried as own copy or against every local prekey; the one that opens it is removed |
| PairwiseCrypto.PrekeyOpensExactly | Chat-Client/core/NetworkManager.cpp:1300-1336 | a sealed entry opens under a prekey and identity exactly if both are the ones of the bundle |
| PairwiseCrypto.BundleEntryOpens | Chat-Client/core/NetworkManager.cpp:1391-1437 | a device reads the entry and loses exactly the bundled prekey if the bundle reaches it, and otherwise reads nothing and loses nothing |
| PairwiseCrypto.SelfCopyOpensExactly | Chat-Client/core/NetworkManager.cpp:1338-1364 | the own copy opens exactly on the sender's device and identity and costs no prekey |
| PairwiseCrypto.EnvelopeRoundTrip | Chat-Client/core/NetworkManager.cpp:1376-1447 | any device gets the plaintext and loses exactly the prekey of the first bundle that reaches it; failing that the sender reads its copy; anyone else is told it cannot be read, and nothing changes |
| PairwiseCrypto.SenderReadsItsCopy | Chat-Client/core/NetworkManager.cpp:1338-1364 | the sender reads its own message, again and again, from an unchanged state |
| PrekeyStore.PrekeyTable.UpsertIdentityKey | Chat-Server/database/DatabaseManager.cpp:1753-1803 | tables and answer are those of `UpsertIdentity`, of which `PrekeyStore.UpsertIdentityExactly` says when it deletes |
| PrekeyStore.UpsertIdentityExactly | Chat-Server/database/DatabaseManager.cpp:1773-1779 | a prekey is deleted if and only if it is of this user and device, is not used, and another identity key is on record; every other row and identity is as before |
| PrekeyStore.PrekeyTable.UploadPrekeys | Chat-Server/database/DatabaseManager.cpp:1824-1861 | non-empty keys become new unused rows under new ids, and their number is returned |
| PrekeyStore.EmptyKeysAreSkipped | Chat-Server/database/DatabaseManager.cpp:1836-1858 | empty keys are passed over and the others stored as if they had come alone |
| PrekeyStore.PrekeyTable.ReclaimExpired | Chat-Server/database/DatabaseManager.cpp:1880-1905 | claims that have timed out become unused, all else stays |
| PrekeyStore.PrekeyTable.ClaimPrekeys | Chat-Server/database/DatabaseManager.cpp:1880-1964 | the rows are those of `Claim`, each claimed at the reading of the clock for its device, and the result lists one prekey for each stocked device of the user |
| PrekeyStore.PrekeyTable.ClaimOne | Chat-Server/database/DatabaseManager.cpp:1922-1956 | one round of the device loop marks the smallest unused id of that device and no other row |
| PrekeyStore.PrekeyTable.ConsumePrekeys | Chat-Server/database/DatabaseManager.cpp:1999-2015 | exactly the claimed ones among the ids become used, and their number is returned |
| PrekeyStore.PrekeyTable.RemoveDeviceKeys | Chat-Server/database/DatabaseManager.cpp:2017-2038 | the device loses its identity and its prekeys |
| PrekeyStore.ProcessRegisterKeys | Chat-Server/core/RequestHandler.cpp:1156-1228 | outcome and tables are those of `Register`, every refusal included |
| PrekeyStore.RegisteredExactly | Chat-Server/core/RequestHandler.cpp:1156-1228 | the condition of each answer: at most 100 prekeys and 500 in stock, all well-formed, for an accepted one; a refusal on account of the prekeys still stores the identity key |
| PrekeyStore.UploadStock | Chat-Server/database/DatabaseManager.cpp:1824-1861 | an upload of non-empty keys adds exactly one unused row for each, under consecutive new ids |
| PrekeyStore.RegistrationKeepsQuota | Chat-Server/core/RequestHandler.cpp:1169-1218 | a registration that uploads keys leaves the device with exactly the stock it answers, at most 500, under the identity it sent, with all its keys stored |
| PrekeyStore.ProcessFetchKeys | Chat-Server/core/RequestHandler.cpp:1231-1299 | each refusal happens exactly under its condition and leaves the tables alone; otherwise every bundle is a prekey that this claim handed out, every handed-out prekey with a known identity is in a bundle, and there is an answer exactly if there is one |
| PrekeyStore.BundlesAreHanded | Chat-Server/core/RequestHandler.cpp:1262-1285 | pairing claims with identities gives exactly the prekeys handed out whose device has an identity |
| PrekeyRuns.RunIsSound | Chat-Server/database/DatabaseManager.cpp:1753-1803 | in every reachable state each unused or claimed prekey was uploaded under its device's current identity |
| PrekeyRuns.BundlesMatchGenerations | Chat-Server/core/RequestHandler.cpp:1262-1285 | in every reachable state a bundle pairs a prekey with the identity it was uploaded under |
| PrekeyRuns.ClaimEffect | Chat-Server/database/DatabaseManager.cpp:1880-1964 | a claim hands out a prekey if and only if it is the smallest available id of a device of that user, and apart from time-outs touches no other row |
| PrekeyRuns.StepEffect | Chat-Server/database/DatabaseManager.cpp:1753-2038 | what becomes of each row in a registration, claim, use or removal: exactly which rows are deleted, handed out, given back or used up |
| PrekeyRuns.IdentityEffect | Chat-Server/database/DatabaseManager.cpp:1753-2038 | what is on record as a device's identity key after any step: only its own well-formed registration and its removal change it |
| PrekeyRuns.EveryStockedDeviceIsServed | Chat-Server/database/DatabaseManager.cpp:1907-1956 | every device of the user with an available prekey gets one |
| PrekeyRuns.SpentForGood | Chat-Server/database/DatabaseManager.cpp:1999-2015 | a used or deleted prekey stays spent for the rest of any run, and a deleted id never comes back |
| PrekeyRuns.HandoutsAreFarApart | Chat-Server/database/DatabaseManager.cpp:1880-1964 | from the time one claim hands a prekey out to the time-outs of the next claim that hands it out are at least 600 seconds |
| PrekeyRuns.SpentIsNeverHandedOut | Chat-Server/database/DatabaseManager.cpp:1922-1956 | no later claim hands out a spent prekey |
| PrekeyRuns.ValidatesExactly | Chat-Server/database/DatabaseManager.cpp:1982-1997 | over any run a prekey validates if and only if a claim handed it out for that user and device and since then it was not used, its device was neither removed nor registered under another identity key than the one on record, and no claim came 600 seconds later |
| MessageTable.Messages.GetMessageByClientKey | Chat-Server/database/DatabaseManager.cpp:1310-1339 | finds the first row of the key; an empty device or client id finds none |
| MessageTable.Messages.SendMessage | Chat-Server/database/DatabaseManager.cpp:1260-1307 | inserts a row, or on a conflict with the index answers with the id already there |
| MessageTable.Messages.EditMessage | Chat-Server/database/DatabaseManager.cpp:1463-1483 | the row of that id, unless deleted, gets the new content and the edited mark, no other row changes, and the result says whether there was one |
| MessageTable.Messages.DeleteMessage | Chat-Server/database/DatabaseManager.cpp:1487-1502 | the row of that id keeps nothing but its tombstone, no other row changes |
| IdempotentSend.RunIsSound | Chat-Server/core/RequestHandler.cpp:799-896 | over any interleaving of private and group sends and other writers the keys stay unique, every answer is the id of a stored row, and a transaction that inserts sees what is committed |
| IdempotentSend.OneRowPerKey | Chat-Server/database/DatabaseManager.cpp:364-372 | over any interleaving at most one row has a given sender, device and client id |
| IdempotentSend.RepliesAgree | Chat-Server/database/DatabaseManager.cpp:1260-1307 | any two handlers of one key that have replied gave the same message id |
| IdempotentSend.RepliesStand | Chat-Server/core/RequestHandler.cpp:799-813 | a reply once given is not changed by any later step |
| IdempotentSend.RefusedInsertIsAnswered | Chat-Server/core/RequestHandler.cpp:1898-1906 | a group send that loses the race still answers: none fails, and a refused insert has a row to find |
| IdempotentSend.PrivateSendFailsExactly | Chat-Server/core/RequestHandler.cpp:872-896 | over any run a private send fails if and only if between its look-up in the transaction and its insert anybody committed, or at the insert somebody else was writing |
| IdempotentSend.CommitBetweenFails | Chat-Server/database/DatabaseManager.cpp:1266-1300 | after any run with nobody writing, one commit of anything at that moment makes a new private send fail, with nothing stored |
| IdempotentSend.SecondSendReusesIffDeviceNamed | Chat-Server/database/DatabaseManager.cpp:1285-1290 | after any run with nobody writing, resending a message adds no row if and only if the device id is not empty |
| PrivateSend.ProcessSendMessage | Chat-Server/core/RequestHandler.cpp:759-896 | outcome, prekeys and messages are those of `Send`, and the consume step of a stored message takes every prekey it names; `PrivateSend.AnsweredExactly` and `PrivateSend.AnswerNamesTheRow` say what `Send` answers |
| PrivateSend.AnsweredExactly | Chat-Server/core/RequestHandler.cpp:759-896 | the condition of each answer, for every request: accepted exactly if the client message id has 1 to 128 characters, the recipient is somebody else, nothing is stored under the key, and the envelope decodes, passes and has an entry for somebody else |
| PrivateSend.AnswerNamesTheRow | Chat-Server/core/RequestHandler.cpp:799-896 | after `Sent(id)` the one new row has that id and the request's sender, device, client id and envelope; after `Reused(id)` a row of the same key has it and nothing has changed; a refusal changes nothing |
| PrivateSend.CheckEntries | Chat-Server/core/RequestHandler.cpp:826-858 | the validation loop gives what `Check` gives |
| PrivateSend.CheckPassesExactly | Chat-Server/core/RequestHandler.cpp:826-858 | an envelope passes if and only if it has at most one own copy, its peer devices differ, and each names a claimed prekey of the recipient's device; the sets the loop kept are the ones it should have seen |
| PrivateSend.PassedIds | Chat-Server/core/RequestHandler.cpp:826-858 | the prekey ids of an envelope that passes are pairwise distinct, claimed and of the recipient's |
| PrivateSend.AllClaimed | Chat-Server/database/DatabaseManager.cpp:1999-2015 | distinct claimed ids are all consumed |
| PrivateSendRuns.SendUsesAllItsPrekeys | Chat-Server/core/RequestHandler.cpp:826-896 | a stored message names at least one prekey, none twice, none spent before, and all of them are spent after |
| PrivateSendRuns.ResendIsReused | Chat-Server/core/RequestHandler.cpp:799-813 | a client that names its device and sends a message again, after any further sends, edits, deletions and prekey steps, is answered with the id of the first time, and nothing changes |
| PrivateSendRuns.RowEffect | Chat-Server/core/RequestHandler.cpp:2011-2180 | what becomes of a stored message in any step: only its own sender's well-formed edit changes its content, and only its own sender's deletion takes it away |
| PrivateSendRuns.RunIsSound | Chat-Server/core/RequestHandler.cpp:759-896 | over any run of sends, edits, deletions and prekey steps every unedited message names distinct spent prekeys and shares none with another unedited message |
| PrivateSendRuns.NoPrekeyReferencedTwice | Chat-Server/core/RequestHandler.cpp:872-891 | over any run no prekey is named by two stored messages that were not edited |
| PrivateSendRuns.EditMayReferenceAgain | Chat-Server/core/RequestHandler.cpp:2011-2134 | after any run an edit can make a second message name the same prekeys, without touching the prekeys |
| PrivateSendRuns.SomeRunReferencesAgain | Chat-Server/core/RequestHandler.cpp:2011-2134 | there is such a run, from the first registration to the edit |
| ConcurrentSend.RunIsSound | Chat-Server/core/RequestHandler.cpp:826-896 | over any interleaving of validations, transactions and prekey steps a handler has scanned exactly the recipient ids of its entries so far |
| ConcurrentSend.AloneIsSend | Chat-Server/core/RequestHandler.cpp:759-896 | after any run, a handler that nothing disturbs and whose transaction succeeds does to prekeys and messages, and answers, exactly what the send in one piece does |
| ConcurrentSend.ReferenceWasValidated | Chat-Server/core/RequestHandler.cpp:849-855 | every prekey a stored message references was validated for it at some step before |
| ConcurrentSend.StoringSpends | Chat-Server/core/RequestHandler.cpp:876-896 | a transaction leaves every prekey it references spent, unless its claim had timed out and it was given back |
| ConcurrentSend.ReferencedTwiceExactly | Chat-Server/core/RequestHandler.cpp:826-896 | over any run two stored messages reference one prekey if and only if two handlers raced for it: the second validated it before the first one's transaction, or its claim had timed out before that transaction |
| ConcurrentSend.OverlapReferencesTwice | Chat-Server/core/RequestHandler.cpp:849-876 | after any run two new sends to one claimed prekey that both validate before either transaction reference it twice |
| ConcurrentSend.TimeOutReferencesTwice | Chat-Server/database/DatabaseManager.cpp:1892-1956 | after any run a claim that times out between validation and transaction, and is made again, lets two messages reference the prekey |
| SyncEvents.SyncLog.AppendSyncEvent | Chat-Server/database/DatabaseManager.cpp:1643-1658 | the event is added last under the next number, which is returned |
| SyncEvents.SyncLog.GetSyncEvents | Chat-Server/database/DatabaseManager.cpp:1660-1684 | the first `limit` events of the user after the cursor |
| SyncEvents.SyncLog.PruneSyncEvents | Chat-Server/database/DatabaseManager.cpp:1688-1729 | the log after it is that of `Prune`, of which `SyncEvents.PrunesByAge` says what goes |
| SyncEvents.PrunesByAge | Chat-Server/database/DatabaseManager.cpp:1688-1729 | with days to retain, a row goes if and only if its age at the second reading of the clock exceeds them and some row's did at the first; the watermark becomes the larger of the old one and the largest number that had expired by the first; otherwise nothing changes |
| SyncEvents.SyncLog.ProcessSyncEventsRequest | Chat-Server/core/RequestHandler.cpp:1103-1153 | the reply is a page or the order to start over, as in `Respond` |
| SyncEvents.SyncClient.HandleSyncEventsResponse | Chat-Client/core/NetworkManager.cpp:2405-2455 | cursor and received events after a reply, and whether to ask again |
| SyncEvents.SyncClient.CatchUp | Chat-Client/core/NetworkManager.cpp:2638-2645 | with no appends in between the loop ends, with nothing left to fetch and all the user's events received once and in order, or told to start over exactly if the cursor is below the watermark |
| SyncEvents.MatchingAfterPage | Chat-Server/database/DatabaseManager.cpp:1660-1684 | asking again from the last number of a page gives the rest |
| SyncEvents.PageAdvances | Chat-Server/core/RequestHandler.cpp:1133-1150 | a page and what follows its last number are all that matched; a short page is the last |
| SyncRuns.StepKeepsPlaced | Chat-Server/database/DatabaseManager.cpp:1643-1729 | every append, request or statement of a prune, however they fall in with each other and with the clock, keeps log and client in order and moves cursor, watermark and history forward only |
| SyncRuns.StatementsMakePrune | Chat-Server/database/DatabaseManager.cpp:1688-1729 | the three statements with nothing in between are the whole prune |
| SyncRuns.GaplessExactly | Chat-Client/core/NetworkManager.cpp:2638-2645 | in every run, from every cursor, what the client has received is, in order, exactly its own ever-appended events between where it last started over and its cursor, if and only if since then no page passed over a deleted one |
| SyncRuns.StepKeepsKeptExactly | Chat-Server/database/DatabaseManager.cpp:1708-1723 | a step leaves every event above the watermark, or the one about to be set, in the table if and only if it is no delete for which something above it expired between the two readings of the clock |
| SyncRuns.SkipHasACause | Chat-Server/core/RequestHandler.cpp:1115-1134 | a page passes over a deleted event only for a client at cursor 0, after a late delete, if the watermark was read between the delete and the raise of a prune, or if a prune deleted between the two statements of the request |
| SyncRuns.InOnePieceIsCareful | Chat-Server/core/Server.cpp:64-70 | prunes that take one reading of the clock and are done in one piece while no request is in progress are neither late nor make a page early |
| SyncRuns.ReceivedWithoutGap | Chat-Client/core/NetworkManager.cpp:2638-2645 | over any interleaving in which no delete is late and no page is served on a watermark lower than the one set or about to be set, the client has received, strictly in order, exactly those of its own ever-appended events that lie between where it last started over and its cursor; without starting over, from its first cursor |
| SyncRuns.ResyncAdvances | Chat-Server/core/RequestHandler.cpp:1118-1131 | the order to start over moves the cursor strictly forward, to at least the watermark that was read, past every row, and to at most the largest number ever given |
| SyncRuns.ResyncNeedsAnotherPrune | Chat-Client/core/NetworkManager.cpp:2417-2426 | in every run, between the requests answered by two orders to start over there is a prune that raised the watermark |
| SyncRuns.NothingLaterIsSkipped | Chat-Server/database/DatabaseManager.cpp:1718-1750 | after starting over, every later event of the user up to the cursor has been received |
| SyncRuns.DeletedIsMissed | Chat-Server/core/RequestHandler.cpp:1115-1131 | in every run, an event deleted before the client had it is a gap for good once the cursor is past it, unless the client starts over; and with the cursor not below the watermark it keeps getting pages |
| SyncRuns.FirstPageDecides | Chat-Server/core/RequestHandler.cpp:1115-1150 | from cursor 0, over any run without late deletes or early pages, what the client has is gapless from the beginning if and only if none of its events up to the end of its first page had been deleted by then |
| SyncRuns.WatermarkZeroIsEnough | Chat-Server/core/RequestHandler.cpp:1115-1150 | in particular it is if the watermark was 0 then and no prune was about to raise it |
| SyncRuns.FirstClientMissesPruned | Chat-Server/core/RequestHandler.cpp:1115-1131 | for every user there is a run from cursor 0, with every prune in its place, that misses a deleted event and is not told |
| SyncRuns.LateDeleteSkips | Chat-Server/database/DatabaseManager.cpp:1698-1711 | for every user there is a run from cursor 1, with no early page, that misses one |
| SyncRuns.EarlyPageSkips | Chat-Server/database/DatabaseManager.cpp:1708-1723 | for every user there is a run from cursor 1, with no late delete and none during a request, that misses one |
| SyncRuns.OvertakenPageSkips | Chat-Server/core/RequestHandler.cpp:1118-1134 | for every user there is a run from cursor 1, with no late delete and no watermark read between a delete and its raise, that misses one |
| PacketCodec.Codec.AppendData | CommonModule/protocol/PacketCodec.cpp:29-32 | the bytes are added at the end of the buffer |
| PacketCodec.Codec.NextPacket | CommonModule/protocol/PacketCodec.cpp:34-86 | the step is that of `Next`; the buffer is kept, cleared or cut by exactly one frame |
| PacketCodec.Codec.OnReadyRead | Chat-Client/core/NetworkManager.cpp:196-215 | one chunk yields the packets, the rest and the verdict of draining buffer and chunk |
| PacketCodec.FieldRoundTrip | CommonModule/protocol/PacketCodec.cpp:8-27 | a big-endian field reads back as it was written |
| PacketCodec.FieldIsCanonical | CommonModule/protocol/PacketCodec.cpp:34-86 | bytes read as a field are the bytes it is written as |
| PacketCodec.FieldIsBigEndian | CommonModule/protocol/PacketCodec.cpp:14-25 | byte `k` of a field of width `w` is the value divided by 256 to the power of `w - 1 - k`, modulo 256 |
| PacketCodec.FrameLayout | CommonModule/protocol/PacketCodec.cpp:8-27 | a frame is the bytes 58 59 43 50, version 1 in two bytes, type, request id and length big-endian in two, eight and four, and the payload |
| PacketCodec.EncodesExactly | CommonModule/protocol/PacketCodec.cpp:8-27 | a packet encodes to nothing if and only if its payload exceeds 4194304 bytes |
| PacketCodec.DecodesExactlyEncodings | CommonModule/protocol/PacketCodec.cpp:8-86 | a buffer yields a packet if and only if it starts with the encoding of that packet, which is of version 1 and within the size limit |
| PacketCodec.InvalidExactlyWhenHopeless | CommonModule/protocol/PacketCodec.cpp:47-71 | a buffer with a full header is invalid if and only if no further bytes could ever complete a packet |
| PacketCodec.NextOnPrefix | CommonModule/protocol/PacketCodec.cpp:34-86 | more bytes change neither a packet that is complete nor an invalid verdict |
| PacketCodec.DrainInTwo | Chat-Server/core/RequestHandler.cpp:153-175 | draining in two goes gives what one go gives |
| PacketCodec.RestIsIncomplete | Chat-Server/core/RequestHandler.cpp:153-175 | the drain stops only at an incomplete frame or an invalid one |
| PacketCodec.ChunkingDoesNotMatter | Chat-Client/core/NetworkManager.cpp:196-215 | every way of splitting a byte stream yields the same packets, rest and verdict, up to the first invalid data |
| PacketCodec.DrainInvertsEncodeAll | CommonModule/protocol/PacketCodec.cpp:8-86 | draining concatenated encodings gives exactly the packets and an empty buffer |
| PacketCodec.StreamRoundTrip | CommonModule/protocol/PacketCodec.cpp:8-86 | the same, however the stream is split into chunks |
| PacketCodec.DrainedPacketsReencode | CommonModule/protocol/PacketCodec.cpp:8-86 | what was drained, encoded again, is the part of the stream that was consumed |
| NonceCache.SharedNonceCache.CheckAndInsert | Chat-Server/core/NonceCache.cpp:12-54 | cache and answer are those of `CheckNonce`, lazy purge and half eviction included |
| NonceCache.SharedNonceCache.PurgeExpired | Chat-Server/core/NonceCache.cpp:56-67 | exactly the expired nonces go |
| NonceCache.SharedNonceCache.EraseBefore | Chat-Server/core/NonceCache.cpp:41-50 | exactly the nonces before the cut-off go |
| NonceCache.CheckReplayProtection | Chat-Server/core/RequestHandler.cpp:2334-2378 | the timestamp is checked at one reading of the clock, and only then the nonce at a second one |
| NonceCache.CacheAnswersAsHistory | Chat-Server/core/NonceCache.cpp:12-54 | up to the first eviction the cache answers as the record of all acceptances would |
| NonceCache.AcceptedExactly | Chat-Server/core/RequestHandler.cpp:2334-2378 | up to the first eviction a request is accepted if and only if its timestamp is positive and within 300 seconds, its nonce has 1 to 128 characters, and no request with that nonce was accepted within the lifetime before |
| NonceCache.TurnedDownOnlyIfSeen | Chat-Server/core/NonceCache.cpp:12-54 | with evictions too, a request in order is turned down only if its nonce was accepted within the lifetime before, and always if within half of it |
| NonceCache.CacheAfterCheck | Chat-Server/core/NonceCache.cpp:22-52 | exactly which nonces are in the cache after a check, and since when |
| NonceCache.NoReplayWithoutEviction | Chat-Server/core/RequestHandler.cpp:2334-2378 | up to the first eviction no request is accepted twice, if a nonce lives at least twice the tolerance and the time between the two readings |
| NonceCache.NoReplayUnderEviction | Chat-Server/core/NonceCache.cpp:41-50 | with evictions too, no request is accepted twice if half a lifetime covers the tolerance, the time between the two readings, and the seconds its timestamp was ahead of the clock |
| NonceCache.ReplayExactlyWhenShort | Chat-Server/core/NonceCache.cpp:33-39 | that lifetime is exact: up to the first eviction some request is accepted twice if and only if a nonce lives shorter, for every lifetime, size limit and delay |
| NonceCache.ReplayExactlyWhenAhead | Chat-Server/core/NonceCache.cpp:41-52 | that margin is exact: some run of requests with trimmed nonces accepts a request no further ahead of the clock twice if and only if half a lifetime does not cover it, for every lifetime, size limit, delay and number of seconds ahead |
| RateWindow.Window.Allow | Chat-Server/core/RateWindow.h:22-34 | fields and answer are those of `Admit` |
| RateWindow.Window.Reset | Chat-Server/core/RateWindow.h:40-45 | the window is as new |
| RateWindow.AtMostTwiceTheLimit | Chat-Server/core/RateWindow.h:22-34 | any half-open interval of one window length contains at most `2 * maxCount - 1` admitted calls, and none if the limit is not positive |
| RateWindow.BoundIsReached | Chat-Server/core/RateWindow.h:22-34 | for every limit and every window of at least two seconds some run reaches that bound |
| RateWindow.RefusedOnlyWhenFull | Chat-Server/core/RateWindow.h:22-34 | a call is refused only if `maxCount` calls were admitted within one window length before it |
| RateWindow.FieldsAccount | Chat-Server/core/RateWindow.h:22-34 | after any run the two fields account for the admitted calls of the current window |
| GroupMembers.GroupTable.AddGroupMembers | Chat-Server/database/DatabaseManager.cpp:2112-2144 | the loop adds as `AddMembers` does, up to the member limit |
| GroupMembers.GroupTable.CreateGroup | Chat-Server/database/DatabaseManager.cpp:2058-2110 | the owner, and then the initial members as `AddMembers` adds them |
| GroupMembers.GroupTable.ProcessCreateGroup | Chat-Server/core/RequestHandler.cpp:1372-1444 | tables and outcome are those of `Create`, every refusal included |
| GroupMembers.GroupTable.ProcessInvite | Chat-Server/core/RequestHandler.cpp:1447-1545 | tables and outcome are those of `Invite` |
| GroupMembers.GroupTable.ProcessLeave | Chat-Server/core/RequestHandler.cpp:1548-1610 | tables and outcome are those of `LeaveGroup`, passing ownership on first |
| GroupMembers.GroupTable.ProcessKick | Chat-Server/core/RequestHandler.cpp:1613-1672 | tables and outcome are those of `Kick` |
| GroupMembers.CleanIds | Chat-Server/core/RequestHandler.cpp:1392-1402 | the loop gives `Clean` |
| GroupMembers.ScreenIds | Chat-Server/core/RequestHandler.cpp:1484-1513 | the loop gives `Screen`, with the first refusal it meets |
| GroupMembers.CleanFacts | Chat-Server/core/RequestHandler.cpp:1392-1402 | the cleaned ids are the positive ids other than the caller, each once |
| GroupMembers.ScreenExactly | Chat-Server/core/RequestHandler.cpp:1484-1513 | an invitation passes if and only if every cleaned id is registered and no member and there is room for all |
| GroupMembers.AllAdded | Chat-Server/database/DatabaseManager.cpp:2112-2144 | with room for all, every one of distinct new ids is added as a plain member, in order, and nothing else changes |
| GroupMembers.AddsOnlyNewUsers | Chat-Server/database/DatabaseManager.cpp:2112-2144 | adding keeps all members in their places and adds only positive ids from the list that were no members, as plain members |
| GroupMembers.InviteAddsAll | Chat-Server/core/RequestHandler.cpp:1447-1545 | an invitation answered Ok added every cleaned id, so the limit in the database loop never stops it |
| GroupMembers.InvitedExactly | Chat-Server/core/RequestHandler.cpp:1447-1545 | an invitation is accepted if and only if the requester is a member, it names at most 100 ids and somebody new among them, everybody new is registered and no member, and all fit into 200 |
| GroupMembers.InvitationRefused | Chat-Server/core/RequestHandler.cpp:1447-1545 | the condition or reason of each refusal |
| GroupMembers.CreateAddsAll | Chat-Server/core/RequestHandler.cpp:1372-1444 | a created group consists of its owner and every cleaned id |
| GroupMembers.CreatedExactly | Chat-Server/core/RequestHandler.cpp:1372-1444 | the condition of each answer to a group creation; an accepted one takes the next id and a refused one changes nothing |
| GroupMembers.LeaveKeepsGroupSound | Chat-Server/core/RequestHandler.cpp:1548-1610 | exactly the member is gone and the others keep their roles, except that the one who joined first takes over from an owner who leaves; with no others the group is empty |
| GroupMembers.KickKeepsGroupSound | Chat-Server/core/RequestHandler.cpp:1613-1672 | a permitted kick removes the target and nobody else, and keeps the owner |
| GroupMembers.KickedExactly | Chat-Server/core/RequestHandler.cpp:1613-1672 | a kick succeeds if and only if requester and target are members of the group and the requester's rank is strictly higher; then the target and nobody else is gone, and otherwise nothing changes; the other answers under their own conditions |
| GroupMembers.LeftExactly | Chat-Server/core/RequestHandler.cpp:1548-1610 | leaving succeeds if and only if the requester is a member, and touches no other group |
| GroupMembers.OneOwnerAlways | Chat-Server/core/RequestHandler.cpp:1372-1672 | over any run every non-empty group has exactly one owner, at most 200 members, and no member twice |

## Left out

- Real cryptography, TLS, certificates, key wiping and protected storage: symbolic terms stand for them.
- JSON, base64, SQL text, schema migration, sockets, signals, threads and the user interface; a malformed field becomes a case of a datatype.
- Login, sessions, password hashing and the session registry: single checks and wiring.
- Leaving a group is several statements; it is one step here.
- Edits and deletions among concurrent private sends.
- The five seconds after which a waiting write gives up.
- Login and device checks in front of the handlers, and the rate limit in front of sending; rate limiting itself is `RateWindow`.
- Group sends and group key distributions on the server: prekeys used up by them are arbitrary consume steps in `PrekeyRuns`.
- Receipts, read cursors, conversation preferences and contacts.
- The content of events and messages the client stores once they are received.
- The 32-bit width of the ratchet's iteration: a received iteration is bounded by 100000000 on decoding, and the sender's counter is unbounded here.
- GroupDelivery.PermutationDecryptedInFull: is about senders for which drawing a nonce never failed, since such a failure steps the chain without a message and leaves its iteration outstanding.
- GroupDelivery.OutputAtMostOnce: is about the receiver with the cache and one installation of its key; what a later installation does is `GroupInbox.ReinstallReplays`.
- GroupInbox.ShownAtMostOnce: is about runs in which a key is installed only while nothing was read under it; `GroupInbox.ReinstallReplaysExactly` shows why.
- GroupInbox.StoreRefinesReceiver: is about channels of other devices, since own sends move the row of an own channel without a message arriving.
- SenderKeyStore.NoIterationEmittedTwice: is about runs in which the write of every send succeeds; `SenderKeyStore.RepeatsExactly` says what holds otherwise.
- PrivateSendRuns.NoPrekeyReferencedTwice: is about messages that were not edited and requests that are atomic; `PrivateSendRuns.EditMayReferenceAgain` and `ConcurrentSend.ReferencedTwiceExactly` show why.
- SyncRuns.ReceivedWithoutGap: is about clients with a positive cursor, without late deletes and early pages; `SyncRuns.GaplessExactly` and `SyncRuns.FirstPageDecides` say what holds otherwise.
- MessageTable.Messages.EditMessage: has no case for an empty content or content type, which the handler turns down before.
- PacketCodec.ChunkingDoesNotMatter: bytes that arrive after invalid data are not read, as the connection is closed.
