# ADD: verification model

A Dafny model of the protocol cores of ADD (the Rust workspace in `crypto/`, `crypto-pq/`, `dht-core/` and
`client/`), with proofs about whole runs of them. `dafny verify dfyconfig.toml` checks the project.

## What is modelled

| file | what it covers |
|---|---|
| `Gf256.dfy` | GF(2^8) arithmetic: the shift-and-reduce product, the searched inverse, the field laws |
| `Shamir.dfy`, `SecKit.dfy` | 2-of-3 key sharing and the boot protocol over three shard files |
| `Primitives.dfy`, `DoubleRatchet.dfy` | the primitives as arbitrary functions, and the Double Ratchet session object |
| `BatchDelivery.dfy` | out-of-order batches of linear frames |
| `DeliveryOutcomes.dfy`, `KemOutcomes.dfy` | the exact fate of every honest linear and KEM frame, at any receiver |
| `TwoWay.dfy`, `RatchetBounds.dfy` | two-way traffic, bounded work and memory |
| `KeyChains.dfy`, `KeySeparation.dfy` | key chains in general; the keys of a pair are all different; self sessions |
| `KemRatchet.dfy`, `KemRatchetKeys.dfy` | KEM-ratchet chains and key window; its keys are all different |
| `RatchetWire.dfy`, `Pqxdh.dfy` | wire format, session keys |
| `KeyCache.dfy` | the trust-on-first-use verifying-key cache with LRU eviction |
| `RateLimiter.dfy` | the sliding-window limiter with background pruning and a bucket cap |
| `MessageStore.dfy`, `Padding.dfy` | the encrypted, blind-indexed store, the status ledger, message padding |
| `Pir.dfy`, `BotLog.dfy` | registry bins with the masked scan, and log rotation |

The primitives (HKDF, AES-GCM, ML-KEM, HMAC, UTF-8 decoding) are fields holding arbitrary functions; each theorem holds
for every choice that obeys the few laws written in `Suite.Lawful`, `Vault.Lawful` and `Padding.Lawful`, and any
further ones it names. Randomness
and the iteration order of hash maps are parameters or free choices, so every result is for all of them. Clock readings
are parameters too: those of the rate limiter, taken before waiting for its lock, may arrive out of order, by a lag each
theorem names or without any bound; those of the key cache are taken under its lock and never go back.
Objects whose methods change their fields are classes; each method is tied to a function or relation on values, and the
results about runs are lemmas about those.

## Main results

- **One key for all boots** (`SecKit.OneKeyForAllBoots`). From a first boot on, whatever random slopes are drawn and
  whichever shard file is lost or damaged between two boots, every boot returns the first boot's key. A re-split
  interrupted by a failing write, which may leave its file truncated, keeps the key exactly unless only the first write
  completed with different slopes (`SecKit.InterruptedResplit`).
- **No key is minted on disk when the policy forbids it** (`SecKit.RefusesDisk`, `SecKit.BootsExactly`): a boot yields a kit exactly when two
  shards can be read, or the tmpfs policy is off, or the mount is tmpfs; a refusal leaves the files alone.
- **Sharing is exact and hiding** (`Shamir.ReconstructExact`, `Shamir.ReconstructMixedExact`,
  `Shamir.OneShareFitsEveryKey`), resting on the field laws: the loop computes the remainder of the carry-less
  product, and the brute-force search finds a^254.
- **Ratchet delivery.** Batches of linear frames come back in any order and with repeats
  (`BatchDelivery.BatchInAnyOrder`, and without the 1024 bound `BatchDelivery.DeliverableRun`); two-way traffic
  interleaves freely (`TwoWay.TwoWayTraffic`); no run exceeds 1024 stored keys or 1025 derivations in a call
  (`RatchetBounds.EveryRunBounded`).
- **No two frames have one key** (`KeySeparation.KeysApart`): over every two-way run of a fresh pair, with both kinds of
  frame, every frame of either direction is sealed under a key of its own, when no two of the derivations used collide;
  the same for a KEM-ratchet run, and for sides whose combined secrets differ (`KemRatchetKeys.SendKeysApart`,
  `KemRatchetKeys.CombinedMatters`). The hypotheses are shown to be met. `Pqxdh.HandshakesApart` says it of handshakes.
- **Self sessions** (`KeySeparation.SelfFirstFrame`, `KeySeparation.SelfOpensExactly`): of two on one secret each opens the
  other's first frame, and message i exactly when it has sent i messages itself.
- **The fate of every honest linear frame** (`DeliveryOutcomes.DeliveryExact`), at any receiver, chain key and label. The
  receiver tells the formats apart by the last two bytes of the body, so the condition covers short texts, stored keys,
  misread frames, labels too far ahead and labels passed. When opening keeps sizes and does not succeed by accident
  under another key, it is a condition on text length, last two bytes, label, table and chain alone
  (`DeliveryOutcomes.SeparateExact`), also in sessions with KEM frames (`KemOutcomes.MixedSessionExact`). Three refusals
  change nothing (`ShortTextRefused`, `MisreadRefused`, `GapRefused`); two failures move the chain before
  authenticating (`MisreadMovesChain`, `PassedFrame`), and `DeliveryOutcomes.MisreadDesyncs` is an honest session in
  which the next honest frame then fails.
- **The fate of every honest KEM frame** (`KemOutcomes.KemExact`, `KemOutcomes.KemSeparateExact`): given back exactly when
  its label is not stored and both sides derive one message key; the chain moves whenever the label is not stored. So a
  repeated frame is refused while its label is stored (`KemOutcomes.KemRepeatRefused`; a linear one is given back again,
  `DeliveryOutcomes.LinearRepeats`), and of two swapped frames each is given back only if two derivations collide
  (`KemOutcomes.KemSwapped`, with an input that loses both in `KemOutcomes.SwapLosesBoth`).
- **The key window is exact** (`KemRatchet.WindowDelivery`): a KEM-ratchet message decrypts exactly when its index is at
  most 1024 ahead and at most 1024 behind.
- **Wire format** (`RatchetWire.RoundTripExact`, `RatchetWire.ReprintExact`): both directions, with their conditions.
- **The cache is LRU** (`KeyCache.LruExact`): a fingerprint survives its last touch exactly while at most 999 others have been
  touched since, and a pinned key holds that long (`KeyCache.PinHolds`).
- **The rate limit** (`RateLimiter.AllowExactly`, `RateLimiter.AllowWithin`, `RateLimiter.BuiltLimiterExact`): what each
  call answers for any order of clock readings; and, for a limiter as it is built with at least one key in use, that no
  window of the configured length is ever overfilled exactly when there are at most 100000 keys and readings reach the
  lock in order, and none shorter by the readings' lag exactly when there are at most 100000 keys.
- **Registry** (`Pir.RegistryLayout`, `Pir.RegistryAnswers`, `Pir.RegistryLookup`): however calls to different bins
  interleave, each bin holds its own first 18 entries in order, and a masked lookup finds the earliest.
- **Store**: indistinguishable from a plain map exactly when the blind index does not collide
  (`MessageStore.IndexedStoreExact`); the ledger replays (`MessageStore.LedgerReplays`), and status, time and records are
  those of the operations asked for (`MessageStore.StatusFollows`).
- **Constant size** (`Padding.ConstantSize`, `Padding.LengthShowsClass`): the padded form has the least power of two from
  2^8 to 2^16 above the text's length, so its length tells that class and no more.
- **Padding has a one-byte header** (`Padding.PadRoundTripExact`, `Padding.SafeLengths`, `Padding.LongTextCorrupted`):
  a 512-byte text does not survive.

## Where the code and its comments differ

The model follows the code.

- `crypto/src/snapshot_defense.rs:89` writes the reduction as x^4 + x^3 + x + 1; the constant 0x1D is x^4 + x^3 + x^2 + 1.
- `crypto/src/snapshot_defense.rs:527` says recovery panics below two shards; the code mints a fresh key.
- `crypto/src/lib.rs:378-383` says out-of-order KEM frames simply fail, fail-closed; a frame that fails there has already
  moved the receive chain, so the frame it overtook fails too (`KemOutcomes.KemSwapped`).
- `crypto/src/lib.rs:382-383` and `:407` store a KEM frame's key for replay; under a stored label the whole body,
  ciphertext included, is opened with it, so a repeated KEM frame is refused (`KemOutcomes.KemRepeatRefused`).
- `dht-core/src/ratelimit.rs:16-18` describes a sliding window of one length; a reading taken before another task's and
  admitted after it (`:54-56`, `:81-83`, `:109-111`) lets a window hold more (`RateLimiter.LateReading`).
- `crypto/src/lib.rs:196-200` says a self session decrypts its own messages; once it has sent one, its chain has moved past that
  message's key, and only a session that has sent as many messages opens it (`KeySeparation.SelfOpensExactly`).
- `crypto-pq/src/pqxdh.rs:166-208` swaps the keys between the roles, but not the IVs: what one side calls its send IV the other
  side calls its send IV too (`Pqxdh.DirectionsApart`).
- `dht-core/src/crypto_helpers.rs:87` names an `Ok(false)` conflict answer; a conflict is an `Err`. The model's `ok` is false then.
- `dht-core/src/ratelimit.rs:60` evicts "the oldest bucket"; the code drops whichever key the map yields first.
- `client/src/main.rs:5370-5371` says the padding length fits the header up to 65535; one byte is written.

## Model

| member | source | states |
|---|---|---|
| Gf256.GfMul | crypto/src/snapshot_defense.rs:80-97 | the loop yields the field product, which is the remainder of the carry-less product modulo x^8+x^4+x^3+x^2+1 |
| Gf256.MulIsRemainderBits | crypto/src/snapshot_defense.rs:80-97 | the field product differs from the unreduced carry-less product by a multiple of the modulus |
| Gf256.RemainderUnique | crypto/src/snapshot_defense.rs:80-97 | a carry-less polynomial has at most one one-byte remainder, so the product is determined |
| Gf256.MulLaws | crypto/src/snapshot_defense.rs:80-97 | multiplication is commutative, associative, distributes over XOR, has unit 1 and zero 0 |
| Gf256.FrobeniusFixes | crypto/src/snapshot_defense.rs:99-100 | a^256 = a for every element |
| Gf256.InverseLaw | crypto/src/snapshot_defense.rs:99-108 | a^254 is the one and only inverse of a nonzero a |
| Gf256.GfInv | crypto/src/snapshot_defense.rs:102-108 | the search over 1..255 finds the inverse of every nonzero element and answers 0 for 0 |
| Gf256.GfDiv | crypto/src/snapshot_defense.rs:110-113 | the quotient times the divisor is the dividend, for a nonzero divisor |
| Shamir.SplitKey | crypto/src/snapshot_defense.rs:272-297 | the three shares are the points at 1, 2, 3 of the line through the key with the given slopes |
| Shamir.SharesAre | crypto/src/snapshot_defense.rs:272-297 | the three shares in doublings instead of products, at 1, 2 and 3; together they sum to the key |
| Shamir.Reconstruct | crypto/src/snapshot_defense.rs:303-326 | fewer than two shares are an error; else the first two are interpolated at 0 |
| Shamir.InterpolateMixedByte | crypto/src/snapshot_defense.rs:311-320 | interpolating points of two lines through one key gives the key plus a multiple of the slope difference |
| Shamir.ReconstructExact | crypto/src/snapshot_defense.rs:272-326 | any two points of one line, in either order, give the key back exactly when their indices differ or the key is zero |
| Shamir.ReconstructMixedExact | crypto/src/snapshot_defense.rs:303-326 | points of two lines through one key give it back exactly when the lines are one |
| Shamir.OneShareFitsEveryKey | crypto/src/snapshot_defense.rs:270-297 | for each nonzero index, share and candidate key exactly one coefficient vector explains the share |
| SecKit.FromBytes | crypto/src/snapshot_defense.rs:246-256 | a shard parses exactly when it is 33 bytes long, and prints back to those bytes |
| SecKit.StateDir.Persist | crypto/src/snapshot_defense.rs:517-523 | three writes in order, stopping at the first that fails, which leaves its file alone or truncated |
| SecKit.StateDir.Bootstrap | crypto/src/snapshot_defense.rs:511-525 | tmpfs refusal before any key exists, else a fresh key, split and stored |
| SecKit.RefusesDisk | crypto/src/snapshot_defense.rs:511-514 | with fewer than two readable files, the policy on and no tmpfs, a boot answers the probe's error and leaves the files as they were |
| SecKit.BootsExactly | crypto/src/snapshot_defense.rs:511-557 | when its writes complete, a boot yields a kit exactly when two files can be read, or the policy is off, or the mount is tmpfs; below two its key is the fresh one |
| SecKit.ErrorsKeepFiles | crypto/src/snapshot_defense.rs:511-557 | only a kit or a failed write leaves the files changed |
| SecKit.StateDir.RecoverOrBootstrap | crypto/src/snapshot_defense.rs:528-557 | the provider scan, recovery and re-split equal one step of the boot function |
| SecKit.RecoversExactly | crypto/src/snapshot_defense.rs:530-547 | a boot that reads two shards returns the key exactly when the first two readable ones lie on one line |
| SecKit.BootKeepsKey | crypto/src/snapshot_defense.rs:528-557 | with one shard lost, whichever it is, a boot recovers the key and re-splits it |
| SecKit.RunKeepsKey | crypto/src/snapshot_defense.rs:528-557 | every boot of a run returns the same key, freshly split |
| SecKit.OneKeyForAllBoots | crypto/src/snapshot_defense.rs:511-557 | from a first boot on, all boots of all runs with at most one loss between boots return the first boot's key |
| SecKit.InterruptedResplit | crypto/src/snapshot_defense.rs:549-556 | after a re-split interrupted by a failing write, whether or not it damaged its file, the next boot gives the key back exactly unless only the first write completed with different slopes |
| DoubleRatchet.DoubleRatchetSession.constructor | crypto/src/lib.rs:210-254 | the initial root and chain keys for each role and for self mode |
| DoubleRatchet.DoubleRatchetSession.EncryptFirst | crypto/src/lib.rs:279-303 | the linear frame under the current send key, and the whole new state |
| DoubleRatchet.DoubleRatchetSession.EncryptMessage | crypto/src/lib.rs:305-341 | the KEM frame under the mixed send key with its length trailer, and the whole new state |
| DoubleRatchet.DoubleRatchetSession.PruneSkippedKeys | crypto/src/lib.rs:270-277 | one arbitrary entry goes when the table is over its cap |
| DoubleRatchet.DoubleRatchetSession.SkipForward | crypto/src/lib.rs:467-477 | the loop stores one key per skipped index and makes exactly that many derivations |
| DoubleRatchet.DoubleRatchetSession.TrySimple | crypto/src/lib.rs:455-493 | gap check, skip, chain move before authentication, bookkeeping after it |
| DoubleRatchet.DoubleRatchetSession.TryKem | crypto/src/lib.rs:376-410 | the KEM path: ciphertext length check, mixing, chain move before authentication |
| DoubleRatchet.DoubleRatchetSession.DecryptMessage | crypto/src/lib.rs:343-427 | stored keys first, then the format test, then the matching path |
| DoubleRatchet.DoubleRatchetSession.DecryptFirstMessage | crypto/src/lib.rs:429-448 | the linear path at index 0 without the format test |
| RatchetBounds.ReceiveBounded | crypto/src/lib.rs:343-493 | no receiving call, on any bytes and label, leaves over 1024 stored keys or makes over 1025 derivations |
| RatchetBounds.EveryRunBounded | crypto/src/lib.rs:79-86 | the same after every run of calls from a fresh session, whichever entries eviction picks |
| RatchetBounds.StoreSize | crypto/src/lib.rs:270-277 | storing under a new label adds one entry, or replaces one in a full table, and changes no other |
| RatchetBounds.ReceiveGrows | crypto/src/lib.rs:343-493 | no receiving call shrinks the table |
| KeyChains.ChainsMeet | crypto/src/lib.rs:256-267 | two chains of steps share a key only at one place, having begun alike, when no two halves collide |
| KeyChains.KeysMeet | crypto/src/lib.rs:256-267 | the same of message keys |
| KeySeparation.RunRecorded | crypto/src/lib.rs:224-303 | in every two-way run both directions are chains of HKDF steps from different halves of the derived chain keys, each frame sealed under its own step's key |
| KeySeparation.KeysApart | crypto/src/lib.rs:224-341 | no two frames of a run, of one direction or of both and of either kind, have one key, and none has the root key |
| KeySeparation.KeysApartMet | crypto/src/lib.rs:224-267 | a lawful suite and a run under which all hypotheses hold |
| KeySeparation.SelfFirstFrame | crypto/src/lib.rs:196-238 | of two fresh self sessions on one secret each opens the other's first frame |
| KeySeparation.SelfOpensExactly | crypto/src/lib.rs:196-303 | a self session gives back linear message i of another exactly when it has sent i messages itself, besides length, format and window |
| BatchDelivery.BatchFrames | crypto/src/lib.rs:279-303 | frame i of a batch is sealed under key i of the sender's chain |
| BatchDelivery.SkipToTracks | crypto/src/lib.rs:467-477 | skipping ahead keeps the receiver on the sender's chain with only true keys stored, and loses none below index 1024 |
| BatchDelivery.StoredKeyReturns | crypto/src/lib.rs:361-371 | a frame of two or more text bytes whose key is stored is given back whatever its body looks like, and nothing changes |
| BatchDelivery.DeliveryReturns | crypto/src/lib.rs:343-371 | an honest frame whose key is stored, or whose index is within the window and which does not look like a KEM frame, is given back; the chain moves to the greater of its place and the index plus one |
| BatchDelivery.FirstFrameReturns | crypto/src/lib.rs:429-448 | decrypt_first gives the first frame back whatever its length and last bytes |
| BatchDelivery.FreshPair | crypto/src/lib.rs:232-241 | two sessions with one secret and opposite roles start with crossed equal chains |
| BatchDelivery.DeliverableRun | crypto/src/lib.rs:343-493 | any run of arrivals that are deliverable when they come gives back every text and ends at the step after the greatest index |
| BatchDelivery.BatchInAnyOrder | crypto/src/lib.rs:279-493 | for a fresh pair, frames below index 1024 are given back in any order with any repeats, whatever eviction picks |
| DeliveryOutcomes.ShortTextRefused | crypto/src/lib.rs:352-354 | in every lawful suite and state a text under two bytes is answered as too short, without change |
| DeliveryOutcomes.MisreadRefused | crypto/src/lib.rs:374-388 | a frame ending in a plausible length other than 1568 is answered with the parse error, without change |
| DeliveryOutcomes.GapRefused | crypto/src/lib.rs:464-466 | a frame over 1024 ahead is answered with the gap error, without change |
| DeliveryOutcomes.MisreadMovesChain | crypto/src/lib.rs:376-410 | a frame ending in 1568 moves the receive chain before it is authenticated; on failure the receiver is on the sender's chain only if the chain key did not change |
| DeliveryOutcomes.PassedFrame | crypto/src/lib.rs:478-493 | a frame not ahead whose key is not stored is opened under the receiver's next key and moves the chain, also when that fails |
| DeliveryOutcomes.StoredFrame | crypto/src/lib.rs:361-371 | a frame under a stored label is opened with the stored key, and the chain stays |
| DeliveryOutcomes.WindowFrame | crypto/src/lib.rs:455-493 | a frame within the window is opened under the key the receiver's own chain has at its label |
| DeliveryOutcomes.DeliveryExact | crypto/src/lib.rs:343-493 | for every text, sender's chain key, label and receiver, exactly when the text of an honest linear frame is given back |
| DeliveryOutcomes.SeparateExact | crypto/src/lib.rs:343-493 | when opening keeps sizes and fails under the other keys tried, the condition is on text length, last two bytes, label, table and chain alone |
| DeliveryOutcomes.AheadExact | crypto/src/lib.rs:343-493 | for a receiver that reaches the sender's chain key at the label: text length, last two bytes and window alone |
| DeliveryOutcomes.ImplausibleTailReturns | crypto/src/lib.rs:374-378 | such a frame whose last two bytes are zero, or name more bytes than precede them, is given back |
| DeliveryOutcomes.TracksAhead | crypto/src/lib.rs:467-477 | a receiver in step with a sender of linear frames is one, for every label not yet passed |
| DeliveryOutcomes.LinearRepeats | crypto/src/lib.rs:356-371 | a linear frame given back under a label stored afterwards is given back again |
| DeliveryOutcomes.RefusedFrame | crypto/src/lib.rs:374-388 | a concrete honest in-order frame that is refused |
| DeliveryOutcomes.MisreadDesyncs | crypto/src/lib.rs:376-404 | a concrete honest first frame that takes the receiver off the sender's chain, after which the next honest frame fails |
| KemOutcomes.KemAttempt | crypto/src/lib.rs:384-410 | a KEM frame under a label not stored: the secret is mixed into the receiver's own chain key, the chain moves, then the text is opened |
| KemOutcomes.KemStored | crypto/src/lib.rs:361-371 | a KEM frame under a stored label: the whole body is opened with the stored key, and the chain stays |
| KemOutcomes.KemExact | crypto/src/lib.rs:343-427 | for every text, chain key, label and receiver, exactly when an honest KEM frame is given back and when the chain moves |
| KemOutcomes.KemSeparateExact | crypto/src/lib.rs:343-427 | the same as a condition on the label and on both sides deriving one message key |
| KemOutcomes.KemRepeatRefused | crypto/src/lib.rs:356-371 | a KEM frame given back is not given back again while its label is stored, and the label is stored unless the table was full |
| KemOutcomes.KemSwapped | crypto/src/lib.rs:376-410 | of two successive KEM frames in the wrong order each is given back exactly when two derivations yield one key |
| KemOutcomes.SwapLosesBoth | crypto/src/lib.rs:376-410 | a concrete pair of swapped honest KEM frames, both lost |
| KemOutcomes.LinkedAhead | crypto/src/lib.rs:467-477 | in a session of both kinds a receiver in step reaches the sender's chain key at every label up to the next KEM message |
| KemOutcomes.MixedSessionExact | crypto/src/lib.rs:343-493 | there a linear text is given back exactly by its length, its frame's last two bytes and the window |
| TwoWay.KemReceive | crypto/src/lib.rs:376-410 | the next KEM frame is given back and the receive chain follows the send chain |
| TwoWay.LinearReceive | crypto/src/lib.rs:411-421 | the next linear frame is given back and the receive chain follows the send chain |
| TwoWay.StepKeeps | crypto/src/lib.rs:279-427 | every send and every in-order delivery keeps both directions linked |
| TwoWay.TwoWayTraffic | crypto/src/lib.rs:210-427 | under every interleaving of both frame kinds in both directions each delivery returns what was sent, and each receive chain key is the peer's send chain key at that number |
| KemRatchet.SortKeepsEntries | crypto-pq/src/ratchet_pq.rs:334-335 | sorting the table keeps its entries |
| KemRatchet.KemRatchetState.StoreSkippedKey | crypto-pq/src/ratchet_pq.rs:330-337 | a present index is kept; else the entry is appended and the smallest goes when over the cap |
| KemRatchet.StoredLooksUp | crypto-pq/src/ratchet_pq.rs:330-341 | in any table: a present index keeps its key; with room the new one gets its key and the others keep theirs; in a full one an entry of least index goes |
| KemRatchet.KemRatchetState.GetMessageKey | crypto-pq/src/ratchet_pq.rs:339-341 | the key of the first entry for the index |
| KemRatchet.KemRatchetState.AdvanceRecvChain | crypto-pq/src/ratchet_pq.rs:321-328 | one receive step and its whole new state |
| KemRatchet.KemRatchetState.AdvanceSendChain | crypto-pq/src/ratchet_pq.rs:312-319 | one send step and its whole new state |
| KemRatchet.KemRatchetState.EncryptMessage | crypto-pq/src/ratchet_pq.rs:475-502 | advance, mix the root key's first byte into two bytes of the drawn nonce, seal under the key found for the new index |
| KemRatchet.MixTwice | crypto-pq/src/ratchet_pq.rs:484-489 | mixing is undone by mixing again, so distinct draws are sent as distinct nonces |
| KemRatchet.MixedBits | crypto-pq/src/ratchet_pq.rs:484-489 | the first two bytes differ from the draw exactly in the bits of the root key's first byte, and the other ten are those drawn |
| KemRatchet.KemRatchetState.DecryptMessage | crypto-pq/src/ratchet_pq.rs:505-535 | gap check, catch-up loop, lookup, authentication, with the state left in each case |
| KemRatchet.PqDoubleRatchet.DecryptMessage | crypto-pq/src/ratchet_pq.rs:603-623 | the wrapper makes the same moves and answers the key |
| KemRatchet.StoreNext | crypto-pq/src/ratchet_pq.rs:330-337 | storing key n turns the window before n into the window before n+1 |
| KemRatchet.KeyForExactly | crypto-pq/src/ratchet_pq.rs:505-521 | the sender's key is reached exactly within 1024 ahead and 1024 behind; otherwise which error, and nothing changed |
| KemRatchet.RunKeepsWindow | crypto-pq/src/ratchet_pq.rs:505-535 | after any run of decrypt calls, rejected ones included, the table is exactly the last min(recv_seq, 1024) keys |
| KemRatchet.EncryptUsesNextKey | crypto-pq/src/ratchet_pq.rs:475-482 | a sender that only sends seals message n under key n |
| KemRatchet.SendAllKeys | crypto-pq/src/ratchet_pq.rs:475-502 | item i of any run of sends is sealed under key i of the chain and carries the mixed nonce |
| KemRatchet.WindowDelivery | crypto-pq/src/ratchet_pq.rs:475-535 | after any run, message i decrypts to its text exactly when i is in the window, and the wrapper's key is the sender's exactly then |
| KemRatchetKeys.SendKeysApart | crypto-pq/src/ratchet_pq.rs:298-319 | message i of a run is sealed under the key of its own derivation, and no two messages have one key |
| KemRatchetKeys.CombinedMatters | crypto-pq/src/ratchet_pq.rs:298-310 | sides whose combined secrets differ at equal length have no key in common |
| KemRatchetKeys.ReceivesUnderOwnKey | crypto-pq/src/ratchet_pq.rs:505-535 | within the window a receiver opens with the key of its own secret, and fails to authenticate exactly when that does not open |
| KemRatchetKeys.SendKeysApartMet | crypto-pq/src/ratchet_pq.rs:298-310 | a lawful suite and two messages under which all hypotheses hold |
| RatchetWire.CtToBytes | crypto-pq/src/hybrid_kem.rs:136-141 | the buffer is the two parts in order |
| RatchetWire.CtFromBytes | crypto-pq/src/hybrid_kem.rs:142-149 | parsing succeeds exactly at 1120 bytes and prints back |
| RatchetWire.ToWire | crypto-pq/src/ratchet_pq.rs:213-228 | the growing buffer ends as the printed message |
| RatchetWire.WireLayout | crypto-pq/src/ratchet_pq.rs:213-228 | the place of every field in a printed message |
| RatchetWire.FirstByteCounts | crypto-pq/src/ratchet_pq.rs:265-272 | the first byte of a counter is its most significant |
| RatchetWire.FromWire | crypto-pq/src/ratchet_pq.rs:230-276 | the moving-offset parser reads within bounds on every input and equals field-by-field parsing |
| RatchetWire.AcceptsExactly | crypto-pq/src/ratchet_pq.rs:230-276 | the parser accepts exactly the inputs that are long enough, with or without a ciphertext, and whose text is valid |
| RatchetWire.RefusesWith | crypto-pq/src/ratchet_pq.rs:230-276 | the text error exactly when the text is all there and not valid; else the length error tells fewer bytes than needed |
| RatchetWire.CountersRead | crypto-pq/src/ratchet_pq.rs:261-274 | where the counters of an accepted input come from; the second is 0 when the tail has under 16 bytes |
| RatchetWire.BeBytesOfValue | crypto-pq/src/ratchet_pq.rs:265-272 | big-endian printing undoes reading |
| RatchetWire.RoundTripExact | crypto-pq/src/ratchet_pq.rs:213-276 | parsing undoes printing exactly for a version under 256 bytes and a 1184-byte key, with or without the ciphertext |
| RatchetWire.ReprintExact | crypto-pq/src/ratchet_pq.rs:230-276 | accepted messages are well sized, and print to a prefix of the input exactly when the tail has 16 bytes |
| Pqxdh.CombineSorted | crypto-pq/src/pqxdh.rs:153-161 | the filled and conditionally swapped buffer is the two secrets in ascending order |
| Pqxdh.CanonicalSymmetric | crypto-pq/src/pqxdh.rs:154-161 | the ascending pair does not depend on the order given |
| Pqxdh.LessExact | crypto-pq/src/pqxdh.rs:158 | the order is decided by the first differing byte |
| Pqxdh.CanonicalAscends | crypto-pq/src/pqxdh.rs:155-161 | the pair is the two secrets, the smaller first |
| Pqxdh.CanonicalExact | crypto-pq/src/pqxdh.rs:155-161 | it is one for two pairs exactly when they are the same two secrets |
| Pqxdh.DeriveSessionKeys | crypto-pq/src/pqxdh.rs:147-220 | master secret, direction keys, role assignment and IVs |
| Pqxdh.RolesAgree | crypto-pq/src/pqxdh.rs:166-208 | the initiator's send key is the responder's receive key and vice versa, each side passing the secrets in its own order |
| Pqxdh.DirectionsApart | crypto-pq/src/pqxdh.rs:166-215 | the two direction keys differ and are exchanged between the roles; the two IVs differ and are not |
| Pqxdh.HandshakesApart | crypto-pq/src/pqxdh.rs:147-215 | handshakes with another nonce or other secrets share no key and no IV |
| Pqxdh.TaggedApart | crypto-pq/src/pqxdh.rs:147-215 | a derivation function under which any two handshakes meet the hypotheses |
| KeyCache.VerifyingKeyCache.FindLru | dht-core/src/crypto_helpers.rs:66-70 | the scan finds an entry of least access time |
| KeyCache.VerifyingKeyCache.CacheVerifyingKey | dht-core/src/crypto_helpers.rs:54-74 | insert or overwrite, then evict a least recently used entry when over the cap |
| KeyCache.VerifyingKeyCache.PinVerifyingKey | dht-core/src/crypto_helpers.rs:88-131 | first binding inserted, same key refreshed, another key refused without change |
| KeyCache.VerifyingKeyCache.GetCachedVerifyingKey | dht-core/src/crypto_helpers.rs:137-156 | the bound key, with its access time refreshed |
| KeyCache.UpperExact | dht-core/src/crypto_helpers.rs:60 | fingerprints are one to the cache exactly when they agree up to the case of their letters |
| KeyCache.CapacityHolds | dht-core/src/crypto_helpers.rs:119-128 | in every run the cache holds at most 1000 entries |
| KeyCache.FirstBindingWins | dht-core/src/crypto_helpers.rs:96-116 | while cached and not overwritten, a fingerprint's key does not change |
| KeyCache.RecentlyTouchedStays | dht-core/src/crypto_helpers.rs:119-128 | a touched fingerprint stays cached while at most 999 others are touched at that time or later |
| KeyCache.ManyTouchedEvict | dht-core/src/crypto_helpers.rs:119-128 | once 1000 others have been touched later than its last touch it is gone |
| KeyCache.LruExact | dht-core/src/crypto_helpers.rs:119-128 | both as an equivalence, when nothing else happened at the instant of its last touch |
| KeyCache.PinHolds | dht-core/src/crypto_helpers.rs:88-156 | both together: the pinned key stays, and a pin of another key is refused |
| RateLimiter.Limiter.Allow | dht-core/src/ratelimit.rs:53-77 | eviction, retention, decision and insertion as one step, for any evicted key |
| RateLimiter.Limiter.Prune | dht-core/src/ratelimit.rs:80-98 | both loops together: expired entries go, then keys without entries |
| RateLimiter.BucketExact | dht-core/src/ratelimit.rs:53-128 | in every run, whatever the clock readings, a bucket is exactly the admissions not evicted and not found expired since |
| RateLimiter.BucketAgrees | dht-core/src/ratelimit.rs:53-128 | a bucket agrees with the full history since the key's last eviction, as seen from any cutoff that no event so far has passed |
| RateLimiter.PruneTracks | dht-core/src/ratelimit.rs:80-98 | right after pruning a key is tracked exactly when an admission of it is remembered, and its entries lie in the window |
| RateLimiter.AllowExactly | dht-core/src/ratelimit.rs:53-77 | in every run, whatever the clock readings, allow answers true exactly when fewer than max admissions are still remembered |
| RateLimiter.AllowWithin | dht-core/src/ratelimit.rs:53-77 | with readings late by at most a lag, the answer in terms of all admissions since the last eviction, from above and below; with no lag an equivalence |
| RateLimiter.RefinesFullHistory | dht-core/src/ratelimit.rs:53-128 | for a key never evicted, the same over its full history |
| RateLimiter.EveryWindowBounded | dht-core/src/ratelimit.rs:16-22 | with readings late by at most a lag, no closed window shorter than the configured one by the lag holds more than max admissions since the last eviction |
| RateLimiter.FullHistoryWindowBounded | dht-core/src/ratelimit.rs:16-22 | for a key never evicted, the same over its full history |
| RateLimiter.BucketCountBounded | dht-core/src/ratelimit.rs:58-64 | the number of tracked keys never exceeds the cap |
| RateLimiter.NoEviction | dht-core/src/ratelimit.rs:58-64 | while the keys in use number at most the cap, no run evicts |
| RateLimiter.EvictionForgets | dht-core/src/ratelimit.rs:58-77 | for every limiter and any keys over its cap, a run on them in which one key is admitted once more than its maximum at one instant |
| RateLimiter.LateReading | dht-core/src/ratelimit.rs:54-56 | for every limiter, lag and length above the window less the lag, a run with one key that overfills a window of that length |
| RateLimiter.WindowBoundExact | dht-core/src/ratelimit.rs:16-77 | for every lag, length and set of keys, no window of that length is overfilled in any run exactly when the keys number at most the cap and the length is at most the window less the lag, up to the trivial cases |
| RateLimiter.BuiltLimiterExact | dht-core/src/ratelimit.rs:42-49 | for a limiter as `new` builds it, the configured window holds exactly when the keys number at most 100000 and the lag is zero, and the window less the lag exactly when they number at most 100000 |
| MessageStore.Store.SaveSession | client/src/main.rs:1778-1799 | upsert of the encrypted row under the blind index |
| MessageStore.Store.LoadSession | client/src/main.rs:1801-1813 | decrypted text, no session, or an undecryptable row |
| MessageStore.Store.DeleteSession | client/src/main.rs:1816-1823 | the row under the blind index goes |
| MessageStore.Store.StoreMessage | client/src/main.rs:1706-1740 | insert-or-ignore with every column encrypted |
| MessageStore.Store.DeleteMessage | client/src/main.rs:1866-1873 | rows with the id go; the answer says whether there was one |
| MessageStore.Store.UpdateMessageStatus | client/src/main.rs:1876-1943 | the new row and the appended ledger record, or no change |
| MessageStore.IndexedStoreExact | client/src/main.rs:1778-1823 | the encrypted table answers as a plain map in every run exactly when the blind index is injective on the peers used |
| MessageStore.SessionColumns | client/src/main.rs:1778-1823 | in every run, colliding indices or not, a row is there exactly when its index was saved and not deleted since, with the columns of the last save |
| MessageStore.LedgerReplays | client/src/main.rs:1706-1943 | in every run a stored message's columns read back as stored, delivered equals status at least 2, and its records since insertion name its parties and chain from its inserted status to its current one |
| MessageStore.StatusFollows | client/src/main.rs:1876-1943 | in every run a message has the status and time of the last operation since it was stored that sets it, or those stored; its records are one for each such operation, in order |
| MessageStore.OriginExact | client/src/main.rs:1706-1740 | that operation is where the message entered the store: it was not there before and has been since |
| MessageStore.HistoryStamped | client/src/main.rs:1909-1938 | every history row decrypts to a record for its index, with the row's own time |
| MessageStore.DeleteTakesOne | client/src/main.rs:1866-1873 | in every run deleting by a message's row id takes exactly that message |
| MessageStore.DuplicateIgnored | client/src/main.rs:1724-1726 | storing a present message id changes nothing |
| Padding.HexRoundTrip | client/src/main.rs:5378-5385 | hex decoding undoes hex encoding |
| Padding.HexAt | client/src/main.rs:5379 | two lower-case digits for each byte, the high one first |
| Padding.HexDecodesExactly | client/src/main.rs:5385 | exactly an even number of hex digits, in either case, decodes |
| Padding.PadMessageBucket | client/src/main.rs:5341-5379 | the output is the hex of header, message and a fill, and has the size of the text's class |
| Padding.ConstantSize | client/src/main.rs:5348-5368 | that size is twice the least power of two from 2^8 to 2^16 above the text's length |
| Padding.LengthShowsClass | client/src/main.rs:5336-5340 | two outputs have one length exactly when the texts are of one class |
| Padding.UnpadMessageBucket | client/src/main.rs:5384-5395 | decoding, the three errors, and the slice kept |
| Padding.UnpadRefuses | client/src/main.rs:5384-5393 | each refusal by the string handed in |
| Padding.PadRoundTripExact | client/src/main.rs:5341-5395 | unpadding gives every text below 65536 bytes back exactly when its bucket leaves at most 255 padding bytes |
| Padding.SafeLengths | client/src/main.rs:5348-5366 | which lengths those are |
| Padding.LongTextCorrupted | client/src/main.rs:5370-5371 | a 512-byte text comes back with 256 fill bytes appended |
| Pir.NewEntry | crypto/src/pir.rs:83-92 | the hash, then as much metadata as fits, then zeros, byte by byte; nonzero when the hash is |
| Pir.AddToBin | crypto/src/pir.rs:255-261 | the first all-zero slot is overwritten in place, or the bin is full |
| Pir.PirRegistry.AddEntry | crypto/src/pir.rs:245-267 | the registry's whole contents after the call: one bin takes the entry or is full, all others are unchanged |
| Pir.ProcessResponse | crypto/src/pir.rs:173-195 | the scan finds the first whole chunk with the hash, skipping a partial last one |
| Pir.AddAppends | crypto/src/pir.rs:255-266 | an addition appends while fewer than 18 entries are present, and is refused after that |
| Pir.BinLayout | crypto/src/pir.rs:245-267 | after any calls the bin is the first 18 entries in order then zeros, and call k succeeds exactly when k is below 18 |
| Pir.XorTwice | crypto/src/pir.rs:317-324 | applying one mask twice gives the data back |
| Pir.OneMaskFits | crypto/src/pir.rs:317-324 | exactly one mask turns given data into a given answer |
| Pir.MaskedBits | crypto/src/pir.rs:317-324 | a mask changes exactly the bits it has |
| Pir.MaskedLookup | crypto/src/pir.rs:173-195 | a masked lookup returns the earliest accepted entry with the hash |
| Pir.EarliestIs | crypto/src/pir.rs:183-194 | none exactly when no entry has the hash, else an entry with none before it |
| Pir.ZeroEntryVanishes | crypto/src/pir.rs:255-261 | an all-zero entry is accepted and leaves no trace |
| Pir.BinsAreSeparate | crypto/src/pir.rs:245-267 | after any interleaved calls each bin is what its own calls alone make of it, and exists exactly when there was one |
| Pir.RegistryLayout | crypto/src/pir.rs:245-267 | each bin of a registry holds the first 18 entries sent to it, in order, then zeros |
| Pir.RegistryAnswers | crypto/src/pir.rs:245-267 | call k succeeds exactly when fewer than 18 earlier calls went to its bin |
| Pir.RegistryLookup | crypto/src/pir.rs:173-195 | a masked lookup in any bin returns the earliest accepted entry with the hash among those sent to it |
| BotLog.BotLogger.RotateIfNeeded | dht-core/src/bot_log.rs:49-73 | the descending loop of renames, then an empty current file, only at the limit |
| BotLog.BotLogger.Log | dht-core/src/bot_log.rs:76-103 | rotation first, then the line appended |
| BotLog.ShiftMoves | dht-core/src/bot_log.rs:57-69 | on files without gaps each content moves up by exactly one name |
| BotLog.RotationMoves | dht-core/src/bot_log.rs:57-72 | the oldest content is dropped, the rest move up, the current file is empty, and no gap appears |
| BotLog.RetainsSuffix | dht-core/src/bot_log.rs:49-104 | after every run the files oldest first are whole last lines of everything logged, something is missing only once 30 MiB are kept, and no file exceeds the limit by more than one line |

## Left out

- Base64 of ciphertexts and JSON of session state: values are taken in decoded form.
- AES-GCM and HKDF failures (oversized inputs): the primitives are total functions here.
- KeySeparation.SelfOpensExactly: self sessions that send linear frames; the fate of KEM frames at one is `KemOutcomes.KemExact`.
- The u64 counters of the KEM ratchet are unbounded here; those of the Double Ratchet wrap as in a release build.
- Two-way traffic on one KEM-ratchet state: both directions share one table, so the results are for one direction, with one combined secret throughout.
- KEM ratchet root steps, handshake messages and their serialisation: they rest on foreign key types and local randomness.
- The panic of padding a text of 65536 bytes or more: the model's padding asks for a shorter text.
- KeyCache.LruExact: with other events at the very instant of the last touch only the two one-way results hold, since eviction breaks ties by hash-map order. Fingerprints are upper-cased as ASCII.
- RateLimiter: seconds are real numbers, not 64-bit floats.
- SQLite itself, schema migration, the stored timestamps' format and the row id returned for an ignored insert.
- Crashes between the status update and the ledger insert: each store operation is one step.
- BotLog: file operations on existing sources succeed; the line text is taken as formatted.
- PIR queries end to end: the server answers the unmasked bin, so only the layout and the masked scan are stated.
- Memory locking, zeroisation, dump exclusion and the mount probe itself: the probe's answer is an input.
- The DHT, relay, TPM, TLS, delivery tokens, presence, the bot and the desktop UI: input, output and plumbing.
