# AlterChat protocol models in Dafny

A verification project for the messaging core of AlterChat. It models the protocol code as Dafny functions
and as classes with in-place methods, and proves what the protocols promise over every input and every run.

## What is modelled

**Double Ratchet** (`double_ratchet.rs`; sections 2.6 and 3.3 to 3.5 of "The Double Ratchet Algorithm").
`Symbolic` gives X25519 and HKDF as free terms, as `Common` does AES-GCM. `DoubleRatchet` holds the state of one side: pure
functions that specify each operation, the class `DrState` whose methods mutate the fields and are proved equal
to them, and the application's store that saves only after a success. `RatchetHistory` describes a conversation
as one line of epochs and says what it means for a party to be in step with it; every operation keeps that.
`RatchetSystem` runs two parties over a network that drops, delays, reorders and duplicates envelopes and
returns them to their sender. `RatchetSecrecy` says exactly which message keys a stolen session exposes,
`RatchetStoreGrowth` counts the keys a session stores, and `RatchetStart` says when a session works at all.

**Around it.** `SymmetricRatchet` is the older two-chain ratchet of `crypto.rs`; `X3dh` the handshake that feeds
a session; `Onion` the layered packets at byte level; `RateLimiter` the per-peer request limiter; `ProofOfWork`
the two leading-zero checks with minting and solving; `Obfuscation` the obfs4 and Snowflake framings; `Shards`
file splitting and the chunk manifest; `SfuElection` the choice of a call host; `Invites` the use limit and
revocation of room invites. `Common` has what several modules share.

Random draws (new key pairs, nonces, padding) and the clock are parameters. Randomly drawn X25519 secrets come
from a counter, so two draws never coincide.

## What the code does that its documents do not say

- lib.rs:1301 makes a sender the initiator when its id is the smaller one, and lib.rs:1716 makes a receiver the
  initiator when the sender's id is the smaller one. So on a first contact both sides start as initiators, the
  peer with the greater id cannot write at all, and no Double Ratchet message is ever delivered
  (`NoMessageDelivered`). A run can deliver exactly when the receiver's rule makes it the responder (`DeliversIffReceiverResponds`); then every run of the
  application is a run of the two-party system that the other results are about (`ResponderRunsSystem`).
- THREAT_MODEL.md:283 says skipped-message keys are bounded by MAX_SKIP. One `decrypt` stores at most
  2 * MAX_SKIP (`DecryptStoreBound`), but the store has no bound over a session (`StoreUnbounded`). The bound
  holds exactly while no more than MAX_SKIP packets are passed over and still missing (`StoreCountsAwaited`),
  and one delivery moves the store by an exact amount (`StoreGrowsBy`).
- lib.rs:632-647 limits requests by a wall clock, which can step back. A minute then never holds more than the
  limit exactly when the clock never leaves a minute ahead and comes back into it (`NeverOverfullIff`), and the
  queue decides as the full history would exactly when no reading makes one of two earlier ones over a minute
  old against the queue's order (`DecidesByFullHistoryIff`). A clock that never steps back does neither
  (`SteadyClock`).
- App.tsx:381 starts the scan from the preferred peer's id at the voter's own capacity, so voters with different
  preferences can elect different hosts; `VotersAgreeIff` says when they do not.
- onion.rs:34 aims at 16 KiB packets and reserves eight bytes for a length that the measured layer already
  contains, so the padded layer has 16376 bytes (`InnermostPadded`), outer layers are never padded
  (`OuterLayersUnpadded`), and payloads of 16358 to 16364 bytes make the subtraction underflow
  (`WrapSucceedsIff`; the model reports the underflow as an error).
- sharding.rs:48 does not compare the number of shards with `total_shards`, so missing shards shorten the file
  and repeated ones lengthen it without an error (`AnyShardsAssemble`, `AssemblesToDataIffComplete`).
- The obfs4 and Snowflake length fields have 16 bits, so longer data is cut (`ObfuscationExactIff`,
  `SnowflakeRoundTrip`).
- The use limit and the revocation of an invite act only where the invite is stored (`UnstoredAlwaysAccepted`).

## Model

| member | source | states |
|---|---|---|
| DoubleRatchet.DrState.Encrypt | alterchat-core/src/double_ratchet.rs:141-162 | the whole state and envelope after `encrypt`, also when there is no sending chain, as the function that the session results are about |
| DoubleRatchet.DrState.Decrypt | alterchat-core/src/double_ratchet.rs:166-193 | the whole state and outcome of `decrypt`, on success and on every failure path |
| DoubleRatchet.DrState.TrySkipped | alterchat-core/src/double_ratchet.rs:195-205 | the first stored key for the header is removed, whether or not it opens the message; nothing else changes |
| DoubleRatchet.DrState.SkipMessageKeys | alterchat-core/src/double_ratchet.rs:207-226 | the loop stores every passed key and reaches the target, or refuses a gap over MAX_SKIP unchanged |
| DoubleRatchet.DrState.DhRatchet | alterchat-core/src/double_ratchet.rs:228-250 | both new chains, both root steps and the reset counters |
| DoubleRatchet.SessionStore.SendDm | alterchat-ui/src-tauri/src/lib.rs:1275-1361 | an envelope goes out exactly to an unblocked friend with a key, under settings that do not block and with enough trust, and when there is a sending chain; the whole table after it |
| DoubleRatchet.SessionStore.ReceiveDm | alterchat-ui/src-tauri/src/lib.rs:1699-1721 | a text is shown and the session saved exactly when the sender is an unblocked friend with a key and the envelope decrypts to a text; what is kept is the session committed on success |
| DoubleRatchet.StoreGrowsBy | alterchat-core/src/double_ratchet.rs:166-226 | the exact change of the number of stored keys by one delivery, for every state and envelope, and so when it stays within MAX_SKIP |
| DoubleRatchet.DecryptStoreBound | alterchat-core/src/double_ratchet.rs:207-226 | for any state and envelope, failing or not, one `decrypt` stores at most 2 * MAX_SKIP keys |
| RatchetHistory.MessageKeysDistinct | alterchat-core/src/double_ratchet.rs:68-84 | message keys of different positions or epochs of a conversation differ |
| RatchetHistory.KeySchedule | alterchat-core/src/double_ratchet.rs:66-84 | every root, chain key and message key of a conversation as an HKDF call on the one before it, with its label and agreement |
| RatchetHistory.SendInStep | alterchat-core/src/double_ratchet.rs:141-162 | sending keeps a party in step with the history and produces the envelope of the next slot |
| RatchetHistory.PushSkippedInStep | alterchat-core/src/double_ratchet.rs:214-224 | skipping stores exactly the sender's keys for the slots passed |
| RatchetHistory.RatchetInStep | alterchat-core/src/double_ratchet.rs:177-182 | closing a chain at the announced length and ratcheting puts a party in step with the next epoch |
| RatchetHistory.DeliverStored | alterchat-core/src/double_ratchet.rs:195-205 | a passed-over message opens from the store, is removed from it, and the party stays in step |
| RatchetHistory.DeliverOnCurrentChain | alterchat-core/src/double_ratchet.rs:183-193 | a new message on the current chain opens within the gap limit and the party stays in step |
| RatchetHistory.DeliverOnNextChain | alterchat-core/src/double_ratchet.rs:174-193 | the first arrival from the peer's next chain opens within both gap limits and moves the party two epochs on |
| RatchetHistory.RedeliveryFails | alterchat-core/src/double_ratchet.rs:166-205 | a message delivered before is refused, whether its chain is current or old |
| RatchetHistory.OwnEnvelopeFails | alterchat-core/src/double_ratchet.rs:166-205 | a party refuses every envelope that it sent itself, whatever its epoch |
| RatchetHistory.FirstContactIff | alterchat-core/src/double_ratchet.rs:166-250 | a session without a receive chain opens an envelope exactly when it derives the same chain and the gaps are within MAX_SKIP |
| RatchetHistory.CommitIsLoadBearing | alterchat-ui/src-tauri/src/lib.rs:1718-1721 | were a refused redelivery's state kept, the next honest message of the chain would be lost |
| RatchetHistory.ForgeryWouldCostStoredKey | alterchat-core/src/double_ratchet.rs:195-205 | were the state kept after a forgery under a stored header, the awaited message would be lost |
| RatchetHistory.DeliveredPlusStored | alterchat-core/src/double_ratchet.rs:195-226 | on each chain, messages delivered and keys stored are disjoint and add up to the receive frontier |
| RatchetHistory.Deliver | alterchat-core/src/double_ratchet.rs:166-250 | one delivery succeeds exactly when the message is new and within reach, with the text sent, and keeps the party in step |
| RatchetSystem.InitTracked | alterchat-core/src/double_ratchet.rs:97-137 | `init_alice` and `init_bob` on one shared secret satisfy the whole-system invariant |
| RatchetSystem.SendTracked | alterchat-core/src/double_ratchet.rs:141-162 | a send by either party keeps the whole-system invariant |
| RatchetSystem.AttemptTracked | alterchat-core/src/double_ratchet.rs:166-250 | a delivery attempt of any packet, successful or not, keeps the whole-system invariant |
| RatchetSystem.DeliveryCorrect | alterchat-core/src/double_ratchet.rs:166-250 | after every run, bringing any packet succeeds exactly when it was not accepted before and its key is stored or no gap exceeds 1000; it yields the text sent; an unaccepted packet is refused only for its gap; what is kept is the session committed on success, and a refusal leaves both sessions unchanged |
| RatchetSystem.ReflectionRefused | alterchat-core/src/double_ratchet.rs:166-205 | after every run, bringing a packet back to its sender is refused and changes no session |
| RatchetSystem.RewrittenNeverReplays | alterchat-core/src/double_ratchet.rs:166-193 | after every run, a packet under any other header and nonce is opened at most by its receiver, with its own nonce, before it was accepted, and as the text sent |
| RatchetSystem.ShortChainsAlwaysDeliver | alterchat-core/src/double_ratchet.rs:304-318 | while a packet's chains stay within 1000 messages, its first delivery succeeds after any order of other deliveries |
| RatchetSystem.ReceivedOnceUnchanged | alterchat-ui/src-tauri/src/lib.rs:1718-1721 | in every run, each packet is received at most once and as the text sent |
| RatchetSystem.MessageKeysNeverReused | alterchat-core/src/double_ratchet.rs:77-84 | in every run, no two packets are sealed under the same key |
| RatchetSystem.AlwaysOneAhead | alterchat-core/src/double_ratchet.rs:228-250 | in every run, one party is exactly one ratchet step ahead: roots one `kdf_rk` apart, and the receive chain is the sending chain less the messages in flight |
| RatchetSystem.StoreIsPassedUndelivered | alterchat-core/src/double_ratchet.rs:195-226 | in every run, the skipped store holds, once each, exactly the keys of the packets passed over and not accepted |
| RatchetStoreGrowth.Hoarding | alterchat-core/src/double_ratchet.rs:207-226 | losing every other message leaves one stored key per loss, within all gap limits |
| RatchetStoreGrowth.StoreUnbounded | THREAT_MODEL.md:283 | no bound on the skipped store holds over all runs |
| RatchetStoreGrowth.StoreCountsAwaited | THREAT_MODEL.md:283 | in every run, a party stores one key for each packet it has passed over and still awaits; so the store is within MAX_SKIP exactly when that many packets are |
| RatchetStart.GapServedIff | alterchat-core/src/double_ratchet.rs:207-226 | of any number of first messages, the last one, arriving first, is opened exactly when at most 1000 are missing before it |
| RatchetStart.SendsOnceContacted | alterchat-core/src/double_ratchet.rs:141-148 | after every run, `encrypt` fails exactly for the responder who has not accepted anything yet |
| RatchetStart.PrekeyChainUnused | alterchat-core/src/double_ratchet.rs:184-187 | the initiator refuses everything on the responder's first key pair, for want of a chain or for the gap |
| RatchetStart.DeliversIffSameSecret | alterchat-core/src/double_ratchet.rs:92-137 | some run delivers a message exactly when both sides are initialised with the same shared secret |
| RatchetStart.ResponderRunsSystem | alterchat-ui/src-tauri/src/lib.rs:473-494 | if the receiver of a first message starts as the responder, every run of the application has the packets, receipts and sessions of a run of the two-party system |
| RatchetStart.DeliversIffReceiverResponds | alterchat-ui/src-tauri/src/lib.rs:1710-1717 | some run of the application delivers a message exactly when the peer with the greater id starts as the responder on its first envelope |
| RatchetStart.NoMessageDelivered | alterchat-ui/src-tauri/src/lib.rs:1710-1717 | with the roles that the two call sites give out, no run between two peers delivers a Double Ratchet message |
| RatchetSecrecy.DerivableIffAttack | alterchat-core/src/double_ratchet.rs:68-90 | the recursive test of what an attacker can derive agrees with finite sequences of HKDF and DH steps |
| RatchetSecrecy.MessageExposure | alterchat-core/src/double_ratchet.rs:228-250 | a leaked session exposes its pending keys, its two chains from where they stand, the peer's next chain, and nothing else, past or future |
| RatchetSecrecy.ExactExposure | alterchat-core/src/double_ratchet.rs:228-250 | for a leak at any point of any run, a packet's key is derivable exactly when its owner had not used it by then and its chain does not rest on a key pair made later |
| RatchetSecrecy.ForwardSecrecy | alterchat-core/src/double_ratchet.rs:320-340 | a leaked session exposes, of all packets so far, exactly those it still awaits |
| RatchetSecrecy.Healing | alterchat-core/src/double_ratchet.rs:4-6 | once a party's public key has changed after a leak, of the packets sent from then on exactly those are exposed that the peer sends while it still has the leaked public key |
| SymmetricRatchet.RatchetState.Encrypt | alterchat-core/src/crypto.rs:284-302 | the whole state and envelope after `ratchet_encrypt` |
| SymmetricRatchet.RatchetState.Decrypt | alterchat-core/src/crypto.rs:304-321 | the catch-up loop jumps to the envelope's counter; state and outcome on success and failure |
| SymmetricRatchet.PairCrossedIffDistinct | alterchat-core/src/crypto.rs:241-257 | two peers get crossed chains exactly when their ids differ |
| SymmetricRatchet.ChainsByOrder | alterchat-core/src/crypto.rs:241-257 | the peer with the smaller id sends from low to high, the other from high to low |
| SymmetricRatchet.PacketKeys | alterchat-core/src/crypto.rs:284-302 | in every run, a peer's packets carry counters 0, 1, 2 and so on, each sealed under its chain's key at that counter |
| SymmetricRatchet.AcceptedIffNotPassed | alterchat-ui/src-tauri/src/lib.rs:1658-1668 | after every run, a packet is accepted exactly when its counter has not been passed, with the text sent; a refusal changes nothing |
| SymmetricRatchet.RewrittenOpensIff | alterchat-core/src/crypto.rs:304-321 | after every run, a packet under any counter and nonce opens exactly at its receiver, with its own counter and nonce, while that counter is not passed |
| SymmetricRatchet.ReceivedInOrder | alterchat-core/src/crypto.rs:304-321 | in every run, each peer's accepted counters strictly increase and every accepted text was sent |
| SymmetricRatchet.LeakExposesAllLater | alterchat-core/src/crypto.rs:284-321 | a session leaked at any point of any run exposes exactly the packets at or past its two counters: nothing earlier, everything later |
| X3dh.GenerateSharedSecret | alterchat-core/src/x3dh.rs:29-60 | the buffer built step by step is the domain, DH1 to DH3, DH4 when offered, and the KEM secret |
| X3dh.InitiateX3dh | alterchat-core/src/x3dh.rs:62-90 | refusal exactly for a KEM key of another size than 1184 or an invalid one, or the first message and shared secret |
| X3dh.ReceiveX3dh | alterchat-core/src/x3dh.rs:140-177 | refusal exactly for a one-time prekey that is gone or a ciphertext of another size than 1088, or the responder's shared secret |
| X3dh.InputsLaidOut | alterchat-core/src/x3dh.rs:39-55 | where the label, each agreement and the KEM secret stand in what either side hashes |
| X3dh.Agreement | alterchat-core/src/x3dh.rs:29-177 | for every bundle of the responder's secrets, with or without a one-time prekey, both sides get the same secret, and a missing one-time prekey is refused |
| X3dh.IkmInjective | alterchat-core/src/x3dh.rs:43-55 | the concatenated input identifies each part and whether DH4 is present |
| X3dh.SecretsAgreeOnlyOnSameInputs | alterchat-core/src/x3dh.rs:140-177 | short of an HKDF collision, the two sides agree only on the same agreements, KEM secret and prekey flag |
| X3dh.HandshakeDelivers | alterchat-core/src/x3dh.rs:29-177 | two sessions started from the two outputs of a handshake, on the signed prekey, deliver correctly over every run |
| X3dh.DeliveryProvesHandshake | alterchat-core/src/x3dh.rs:140-177 | if the sessions after a handshake, tampered with or not, ever deliver anything, then short of an HKDF collision both sides used the same agreements and KEM secret |
| Onion.WrapOnion | alterchat-core/src/onion.rs:18-49 | the reverse loop builds the packet nested from the last hop, or reports the empty route or the padding underflow |
| Onion.WrapSucceedsIff | alterchat-core/src/onion.rs:34-39 | for a non-empty route, wrapping succeeds exactly when the innermost layer avoids the underflowing sizes |
| Onion.OuterLayersUnpadded | alterchat-core/src/onion.rs:25-40 | no layer but the innermost is ever padded, and each adds its fixed share of bytes |
| Onion.InnermostPadded | alterchat-core/src/onion.rs:33-39 | an innermost layer of at most 16376 bytes is padded to exactly 16376 |
| Onion.PaddingOf | alterchat-core/src/onion.rs:33-39 | the padding of every layer: zeros up to 16376 bytes on a fitting innermost layer, none elsewhere and none for larger payloads |
| Onion.PacketSize | alterchat-core/src/onion.rs:25-46 | the size of the whole packet is a closed form of the route alone |
| Onion.BoxedPerHop | alterchat-core/src/onion.rs:40-46 | each layer is sealed to its hop's key with its own ephemeral key and nonce |
| Onion.LayerRoundTrip | alterchat-core/src/onion.rs:10-16 | deserialising a serialised layer gives it back |
| Onion.PeelAtHop | alterchat-core/src/onion.rs:51-54 | each hop reads exactly the next id and packet, only the last the payload, any other key fails on that layer, and every packet carries the route length modulo 256 |
| Onion.HandleAtHop | alterchat-ui/src-tauri/src/lib.rs:1774-1788 | from the bytes it receives, a hop sends exactly the bytes of the inner packet to the next hop, or drops them when the next id does not parse; the last one takes the payload |
| Onion.RouteTravelled | alterchat-ui/src-tauri/src/lib.rs:1774-1788 | on the wire, a wrapped packet visits the hops of its route in order; the payload arrives exactly when all ids on the way parse, and otherwise it ends before the first that does not |
| RateLimiter.Limiter.Allows | alterchat-ui/src-tauri/src/lib.rs:632-647 | the answer is that of a run of the same peer's earlier requests, and the whole table after it, other peers untouched |
| RateLimiter.AnswerAll | alterchat-ui/src-tauri/src/lib.rs:632-647 | a limiter answers any interleaving of calls from each peer's own requests, and the times it allows a peer are those that the peer's run accepts |
| RateLimiter.SteadyLimit | alterchat-ui/src-tauri/src/lib.rs:637-645 | while time does not run backwards, a request is allowed exactly when fewer requests than its limit, at least one, were accepted in the last 60000 ms |
| RateLimiter.DecidesByFullHistoryIff | alterchat-ui/src-tauri/src/lib.rs:632-647 | the limiter decides every request as a count of all accepted requests at most a minute old would, exactly along the clocks that never show a certain pattern of three readings |
| RateLimiter.NeverOverfullIff | alterchat-ui/src-tauri/src/lib.rs:637-645 | no 60000 ms window holds more accepted requests than the limit, whatever the requests, exactly along the clocks that never come back into a minute they left ahead |
| RateLimiter.SteadyClock | alterchat-ui/src-tauri/src/lib.rs:637-641 | a clock that never steps back shows neither pattern, and one that never shows the first never shows the second |
| ProofOfWork.CheckDifficulty | alterchat-core/src/pow.rs:70-88 | the byte loop decides whether the hash's value is below 2^(8 * len - d), or zero when d exceeds the hash |
| ProofOfWork.LeadingZerosMeaning | alterchat-core/src/spam.rs:29-43 | the second check means the same up to the hash's length, and beyond it also needs whole bytes |
| ProofOfWork.LeadingZerosBelowPowerOfTwo | alterchat-core/src/spam.rs:29-43 | for difficulties within the hash, the second check is a comparison of its big-endian value |
| ProofOfWork.ChecksAgreeIff | alterchat-core/src/spam.rs:29-43 | the two checks differ only on an all-zero hash asked for more, uneven bits than it has |
| ProofOfWork.MeetsMonotone | alterchat-core/src/pow.rs:70-88 | a hash that meets a difficulty meets every lower one |
| ProofOfWork.BigEndianSpells | alterchat-core/src/spam.rs:21 | the bytes of a counter spell it, most significant first |
| ProofOfWork.Mint | alterchat-core/src/pow.rs:15-39 | the token with the least passing 64-bit nonce, or none exactly when no such nonce passes; it verifies exactly for its own resource from its timestamp to its maximal age |
| ProofOfWork.Verify | alterchat-core/src/pow.rs:44-66 | true exactly for the expected resource, a clock in the window, and a hash of resource, timestamp and nonce whose value is below the power of two |
| ProofOfWork.NoWorkNoToken | alterchat-core/src/pow.rs:44-66 | where no nonce does the work for a resource and a time, every token for them is refused |
| ProofOfWork.AcceptedWork | alterchat-core/src/spam.rs:11-17 | a solution is accepted exactly when the hash of challenge id, nonce and solution is below the power of two |
| ProofOfWork.SolvePow | alterchat-core/src/spam.rs:19-27 | the least passing counter, or none exactly when no counter below the limit passes |
| Obfuscation.DeriveMask | alterchat-core/src/pluggable.rs:55-70 | byte i of the mask is byte i of the concatenated hash blocks |
| Obfuscation.MaskPrefix | alterchat-core/src/pluggable.rs:55-70 | a shorter mask is a prefix of every longer one |
| Obfuscation.MaskJoinsBlocks | alterchat-core/src/pluggable.rs:55-70 | the mask is the hash blocks of counters 0, 1, 2 and so on, joined, the last one cut to length |
| Obfuscation.Obfuscate | alterchat-core/src/pluggable.rs:84-107 | the wire format for any nonce and padding |
| Obfuscation.Deobfuscate | alterchat-core/src/pluggable.rs:109-127 | both errors, or the unmasked payload |
| Obfuscation.WireLayout | alterchat-core/src/pluggable.rs:84-107 | where length, nonce, masked data and padding stand, each data byte differing from the wire in the bits of its key-stream byte |
| Obfuscation.DeobfuscationRefusesIff | alterchat-core/src/pluggable.rs:109-117 | which bytes are refused and why, in lengths |
| Obfuscation.ObfuscationRoundTrip | alterchat-core/src/pluggable.rs:84-127 | unmasking gives the data cut to its length modulo 65536, for any nonce and padding |
| Obfuscation.ObfuscationExactIff | alterchat-core/src/pluggable.rs:100-113 | the round trip is exact precisely for data under 65536 bytes |
| Obfuscation.SnowflakeRoundTrip | alterchat-core/src/pluggable.rs:167-193 | the same for Snowflake frames |
| Obfuscation.FrameLayout | alterchat-core/src/pluggable.rs:167-179 | where the letters SNFL, both lengths, the data and the padding stand |
| Obfuscation.UnframingRefusesIff | alterchat-core/src/pluggable.rs:181-193 | which frames are refused and why |
| Shards.ChunksCover | alterchat-core/src/storage.rs:49-51 | chunks join to the data and all but the last are full |
| Shards.SplitAndEncrypt | alterchat-core/src/sharding.rs:22-46 | one shard per chunk, numbered from zero, each with the file id and the number of shards |
| Shards.ShardSeals | alterchat-core/src/sharding.rs:22-46 | shard i seals bytes 262144 i to 262144 (i + 1) under its own nonce, with the 32-bit index and count |
| Shards.DecryptAndAssemble | alterchat-core/src/sharding.rs:48-62 | the array is left sorted by index, and the result joins its texts or is the first failure |
| Shards.SortStable | alterchat-core/src/sharding.rs:50 | shards that share an index keep their order |
| Shards.AssemblesIffAllOpen | alterchat-core/src/sharding.rs:48-62 | any shards whatever assemble exactly when each opens under the key with the nonce it carries |
| Shards.AnyOrderAssembles | alterchat-core/src/sharding.rs:22-62 | every permutation of the shards of a file assembles to the file |
| Shards.AnyShardsAssemble | alterchat-core/src/sharding.rs:48-62 | any list of a file's shards, in any order, with losses and repetitions, assembles without error to the chunks in order, each as often as its shard arrived |
| Shards.AssemblesToDataIffComplete | alterchat-core/src/sharding.rs:48-62 | from a part of the shards, or from all with some repeated, the file comes out exactly when each arrived once |
| Shards.AssemblesToDataIffSameTexts | alterchat-core/src/sharding.rs:48-62 | with shards lost and others repeated at once, the file comes out exactly when the texts in index order are those of the chunks, as long as the last shard is full or arrived at most once |
| Shards.ManifestDescribesData | alterchat-core/src/storage.rs:83-108 | sizes add up, indices are consecutive, every hash is that of its own piece of the data, all chunks but the last are full, and their number is the least possible |
| SfuElection.Elect | alterchat-ui/src/App.tsx:377-394 | the scanning loop computes the standing claim, or no host at or below the threshold |
| SfuElection.ScanFindsGreatest | alterchat-ui/src/App.tsx:382-389 | the scan ends with someone's claim that nobody beats |
| SfuElection.ElectsHost | alterchat-ui/src/App.tsx:377-394 | without a preferred peer, any voter and any key order elect the participant with the greatest (capacity, id) |
| SfuElection.ParticipantsAgree | alterchat-ui/src/App.tsx:377-394 | all participants with one capacity table elect the same host |
| SfuElection.PreferredElectedIff | alterchat-ui/src/App.tsx:381-388 | a preferred peer wins exactly when nobody else beats it at the greater of the voter's own capacity and the one it announced |
| SfuElection.VotersAgreeIff | alterchat-ui/src/App.tsx:377-394 | when two voters with their own preferences elect the same host, in all four cases of whose starting id is beaten |
| Invites.InviteDb.SaveInvite | alterchat-ui/src-tauri/src/db.rs:714-727 | saving again replaces the token and keeps the revocation and the use counter |
| Invites.InviteDb.GetInviteState | alterchat-ui/src-tauri/src/db.rs:729-737 | the revocation and uses of a stored invite |
| Invites.InviteDb.IncrementInviteUse | alterchat-ui/src-tauri/src/db.rs:739-745 | one more use of a stored invite, nothing otherwise |
| Invites.InviteDb.RevokeInvite | alterchat-ui/src-tauri/src/db.rs:758-764 | a stored invite is revoked, a missing one stays missing |
| Invites.InviteDb.AcceptInvite | alterchat-ui/src-tauri/src/commands/governance.rs:47-97 | each of the eight refusals in order, or the room, with both tables after it |
| Invites.UsesCountAccepts | alterchat-ui/src-tauri/src/commands/governance.rs:74-95 | in every run, a stored invite's counter is its number of accepts and never passes the limit |
| Invites.RevokedIffAfterCreation | alterchat-ui/src-tauri/src/db.rs:714-764 | in every run, an invite is revoked exactly when a revocation came after its creation |
| Invites.StoredAcceptedIff | alterchat-ui/src-tauri/src/commands/governance.rs:74-97 | a stored, valid invite is accepted exactly when not revoked since creation and below its limit |
| Invites.UnstoredAlwaysAccepted | alterchat-ui/src-tauri/src/commands/governance.rs:75-95 | an invite that was never stored is accepted whatever its limit and any revocation |
| Invites.AcceptedIff | alterchat-ui/src-tauri/src/commands/governance.rs:47-97 | after every run, exactly which invites are accepted, in terms of key, signature, expiry, trust, revocation and uses, and what room they open |
| Invites.RefusedWhy | alterchat-ui/src-tauri/src/commands/governance.rs:47-86 | after every run, a refusal's message names the first reason that applies |
| Invites.Perform | alterchat-ui/src-tauri/src/commands/governance.rs:47-97 | any list of commands played on the database gives the outcomes and the table of the run |

## Left out

- Bit-level AES-GCM, HKDF, SHA-256, X25519 and ML-KEM: keys, agreements and ciphertexts are terms, or functions constrained by their laws.
- Integer widths of counters: `n_send`, `n_recv`, ratchet counters, the key-stream counter and use counts are unbounded; the code agrees while they stay below their u64, u32 or i64 limits.
- Forged headers: Double Ratchet headers are not bound into the ciphertext. `RewrittenNeverReplays` is about one rewritten envelope after a run; the runs themselves do not rewrite envelopes.
- DoubleRatchet.SessionStore.SendDm: does not choose between the onion route and the direct request, nor keep the private-message table.
- DoubleRatchet.SessionStore.ReceiveDm: does not keep the private-message table or the event shown in the interface; the checks made for every request before it are left out.
- RatchetStart.NoMessageDelivered: is about two peers that are friends with each other's keys and have no stored session yet.
- RatchetSystem.DeliveryCorrect: takes every sent payload to be text, as the sender's `text.as_bytes()` is, so the UTF-8 test before saving always passes.
- Onion.RouteTravelled: does not model what the recipient does with the payload beyond receiving it.
- Onion.PeelAtHop: assumes that all lengths fit in the 64-bit length fields, which every packet in memory satisfies.
- Onion packets forged so that encrypted bytes stand where bincode expects a length: the model rejects them, the code would read whatever number they spell.
- ProofOfWork.Mint: stops where the code's 64-bit counter would overflow.
- Shards.AnyOrderAssembles: takes files of at most 2^32 shards, past which the 32-bit index repeats.
- Prekey and Ed25519 signatures, prekey lifecycle, sealed sender and safety numbers.
- Invites.InviteDb.AcceptInvite: leaves out the login guard and database failures, and the cause that follows "invalid public key"; the issuer's settings are a parameter.
- Message padding of `traffic.rs`, role listings and permission checks: each is a table lookup or a single comparison.
- Automerge room merging, libp2p, Tor, push, storage quotas and the user interface.
