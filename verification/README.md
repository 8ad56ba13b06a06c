# Axona kernel: verified model

Axona is a peer-to-peer publish/subscribe kernel. Nodes have 264-bit ids and route by XOR distance; each
node keeps a bounded table of peers, dials under a budget, hands lookups and messages from node to node, replicates
what is published and acknowledges it with Ed25519 signatures. This project models the parts of that kernel that are
protocols, bounded automata or arithmetic, and proves what they are for: safety over whole runs, bounds, conservation,
round trips, and fast forms equal to simple ones.

One module models one component:

| module | component |
|---|---|
| `Modular`, `Field25519`, `Edwards`, `PointCodec`, `ScalarMult`, `Signature` | the Ed25519 code, from the truncated remainder of BigInt to signing and verifying |
| `KeySpace`, `Nearest`, `Strata`, `Identity` | ids, XOR distance, the k nearest, crowding of classes, identity suffixes |
| `Gate`, `GateRuns`, `Admission` | the table's admission gate: who is held and why, swaps at cap, the join lane |
| `LookupWalk`, `WalkSettlement`, `RoutedWalk`, `ClosestSearch` | the lookup walk, the originator's pending walks, routed messages, the K-closest search |
| `AttemptGuard`, `GuardRuns`, `GuardPacing` | the dial guard, what holds over its runs, and when it lets an identity be dialed again |
| `DeadPeers`, `MarkRuns` | the dead-peer marks, and how long they last over runs |
| `ConnectionBudget` | bilateral links under four caps |
| `Base64`, `Chunk` | splitting a payload into messages and putting it together again |
| `Durability`, `RoleDurability` | durability ledgers, and the node-wide facade over one ledger a role |
| `AckProof` | the signed acknowledgement |
| `Bytes`, `Counting`, `Options` | byte strings, repeated addition and powers, option and result types |

Code that changes things step by step is a class or a method with loops, proved against functions on values; the run
theorems are about those functions. Nothing is assumed of the network: replies, failures, closed channels,
random draws, vitality scores, the answers a search or a probe hears and the choice among eligible candidates are
arbitrary.

The Ed25519 results rest on three facts of mathematics that are hypotheses here and not proved: `Field25519.PrimeField` (2^255 - 19
has no zero divisors, and Fermat's little theorem), `Edwards.CurveGroup` (besides that, the twisted Edwards addition law
is complete, closed and associative on the curve) and `Signature.BaseOrder` (the base point has order N). They stand in the
`requires` of the lemmas and before the arrow in the `ensures` of the methods that need them. That the code's formulas
compute the addition law, that its inverse and identity behave, and that its root finding is sound and complete is
proved from them.

## Findings

Where the code does something its documentation or its callers would not expect, the model follows the code, and a
lemma shows the case or its exact condition.

- A release keeps the channel incarnation of the attempt it releases (src/dht/attemptGuard.js:175-183; `begin` at
  120-129 does not clear it). When failures, expiry or a path backoff keep the entry, the next attempt starts under the
  old channel's name, so the old channel's late events end it and the new channel's do not until it is attached:
  `GuardRuns.ReleaseLeaksIncarnation` gives the exact condition, `GuardRuns.LeakIsReachable` a run that meets it, and
  `GuardRuns.IncarnationIsOwn` that nothing else leaks.
- The path cooldown is documented as capped at `maxMs` (src/dht/attemptGuard.js:64-66, 90-92), but the jitter is
  applied after the cap (98-99): `AttemptGuard.CooldownPassesCap` has 840 s under a cap of 600 s, and
  `AttemptGuard.CooldownKeepsCapIff` when no draw can pass it.
- With `maxAttempts` of 0 one failure is counted before the identity expires (src/dht/attemptGuard.js:151-154):
  `GuardRuns.BareMaximumIff`.
- A refused `tryConnect` can cost the caller a peer: its own swap has been made when the other end refuses
  (src/dht/DHTNode.js:170-173). `ConnectionBudget.TryConnect` has the exact condition,
  `ConnectionBudget.RefusedLinkCostsPeer` a sound network that meets it.
- `find_closest_set` asked for K = 0 reads before the front of an empty list and throws once the table holds a peer
  (src/dht/AxonaPeer.js:1201-1208): `ClosestSearch.FindClosestSet`.
- `findKClosest` with alpha = 0 asks nobody and returns peers it never visited (src/dht/AxonaPeer.js:6567-6575):
  `ClosestSearch.FindKClosest`.
- `PATH_MEMORY` of 1 keeps the whole path, because `slice(-0)` drops nothing (src/dht/AxonaPeer.js:1445):
  `RoutedWalk.MemoryBoundsPath`, `RoutedWalk.MemoryOneNeverRevisits`.
- The originator of a routed message does not look at `MAX_HOPS` (src/dht/AxonaPeer.js:6634-6774), so its one hop
  reaches or passes a limit below two: `RoutedWalk.ShortExactlyFromTwo`.
- A hysteresis at least as wide as the mark table never lets the full latch lift (src/dht/DeadPeers.js:244-248; the
  options accept it, 105-113): `DeadPeers.LatchHysteresis`, `DeadPeers.EmptyTableUnlatched`.
- One attempt per refill window holds under the condition the header names, that evaluation and charge are atomic
  (src/dht/DeadPeers.js:48-50): the table itself lets every attempt go out that was evaluated before another was
  charged. `DeadPeers.AttemptsApart` has the condition, `DeadPeers.OverlappingAttempts` a run without it.
- The per-role maximum of a ledger is called an admission cap (src/pubsub/durability.js:35), but an open at the cap is
  admitted and only finished entries make way (48-52, 222-231): `Durability.CapHoldsIffPendingFit`.
- A full chunk's base64 text fits what the envelope leaves only when that is at least 4 and 0 or 1 modulo 4
  (std/chunk.js:71-73). Otherwise it exceeds it, by one or two characters for a room of two or more and by more below
  that: `Chunk.FullChunkFits`.
- `kNear` of 0 makes the gate throw at cap, where it reads the distance of the entry before the first
  (src/dht/AxonaPeer.js:3429): `Admission.Table.Decide`.
- `invert` refuses zero modulo 1, which has an inverse (src/crypto/noble-ed25519.js:126):
  `Modular.InvertRefusesZeroModOne`.
- `verify` hashes the re-encoded R and A, where section 5.1.7 of RFC 8032 hashes them as received
  (src/crypto/noble-ed25519.js:485); when R or A is the identity its encoding throws and no bytes at all are hashed
  (479-487): `Signature.HashesWhatWasReceived`, `Signature.MessageIsHashed`, `Signature.IdentityIgnoresMessage`.
- Under zip215 a decoded point need not encode to the bytes it came from: `PointCodec.DecodeThenEncode` says exactly
  which do.

## Model

| member | source | states |
|---|---|---|
| `Modular.MIsResidue` | src/crypto/noble-ed25519.js:118-121 | the corrected truncated remainder is the Euclidean remainder, for every sign of the dividend |
| `Modular.Invert` | src/crypto/noble-ed25519.js:123-135 | an inverse in [0, md) exactly for a nonzero number and a positive modulus that have one, an error otherwise; for those, exactly when their greatest common divisor is 1 |
| `Modular.InverseUnique` | src/crypto/noble-ed25519.js:123-135 | no number has two inverses in [0, md) |
| `Modular.InvertRefusesZeroModOne` | src/crypto/noble-ed25519.js:126 | the one inverse the guard refuses: zero has one modulo 1 and modulo nothing else |
| `Field25519.Pow2` | src/crypto/noble-ed25519.js:363-371 | squaring `power` times raises what stood for x^e to x^(e 2^power) in the field |
| `Field25519.Pow2To252Minus3` | src/crypto/noble-ed25519.js:373-387 | the eleven-line chain computes x^(2^252 - 3) modulo P, for every x |
| `Field25519.UvRatio` | src/crypto/noble-ed25519.js:391-409 | `isValid` exactly when the square of the candidate is u/v or -u/v, and the value is the even root of the candidate so turned |
| `Field25519.RootIsSound` | src/crypto/noble-ed25519.js:399-408 | the value is an even square root of u/v in [0, P) exactly in those cases; it is even and in range in every case, and for u = 0 it is a valid 0 |
| `Field25519.SquaresAreRooted` | src/crypto/noble-ed25519.js:391-409 | completeness: if u/v has any square root and P is prime, `isValid` is set |
| `Edwards.AddIsPlus` | src/crypto/noble-ed25519.js:257-276 | `add` of points that stand for two affine points stands for their sum by the twisted Edwards law |
| `Edwards.DoubleIsPlus` | src/crypto/noble-ed25519.js:237-255 | `double` stands for the sum of the affine point with itself, though its formula is another |
| `Edwards.NegateIsMinus` | src/crypto/noble-ed25519.js:233-235 | `negate` stands for the inverse |
| `Edwards.PlusMinus` | src/crypto/noble-ed25519.js:233-235 | a point and its inverse add up to the identity |
| `Edwards.EqualsIsEquality` | src/crypto/noble-ed25519.js:220-228 | cross-multiplication decides equality of the affine points, whatever their Z |
| `PointCodec.FromBytes` | src/crypto/noble-ed25519.js:167-192 | decodes to the specified point or the specified first error, in both modes |
| `PointCodec.DecodedOnCurve` | src/crypto/noble-ed25519.js:167-192 | whatever is decoded lies on the curve, has the y the low 255 bits spell, and an x whose parity is the sign bit (under zip215 save for x = 0) |
| `PointCodec.RepresentedIsValid` | src/crypto/noble-ed25519.js:194-218 | `assertValidity` refuses no representation of a curve point except the identity |
| `PointCodec.ValidityIff` | src/crypto/noble-ed25519.js:194-218 | the validity test accepts exactly what satisfies both equations modulo p and is not the identity, and names the first that fails |
| `PointCodec.ToAffine` | src/crypto/noble-ed25519.js:306-317 | (0, 1) for the identity, otherwise the coordinates divided by Z, or an error when Z has no inverse |
| `PointCodec.ToBytes` | src/crypto/noble-ed25519.js:318-324 | y in 255 bits, least significant byte first, and the parity of x in the top bit, or the error of an invalid point |
| `PointCodec.DecodeThenEncode` | src/crypto/noble-ed25519.js:167-218 | decoding and encoding gives the same 32 bytes exactly for the canonical encodings; strictly, for all but those of the identity's y |
| `PointCodec.EncodeThenDecode` | src/crypto/noble-ed25519.js:167-192 | encoding any curve point and decoding the bytes gives the point, in both modes |
| `Bytes.LeBytesOfLeValue` | src/crypto/noble-ed25519.js:361-362 | little-endian decoding and encoding gives the same bytes |
| `Bytes.LeValueOfLeBytes` | src/crypto/noble-ed25519.js:361-362 | little-endian encoding and decoding gives the same number, if it fits |
| `Bytes.LeValueAppend` | src/crypto/noble-ed25519.js:362 | the first bytes are the low digits: what follows k bytes weighs 256^k |
| `ScalarMult.Precompute` | src/crypto/noble-ed25519.js:536-550 | slot 128 w + i of the 33 * 128 slots is the (i + 1) 256^w-fold base point |
| `ScalarMult.RestBound` | src/crypto/noble-ed25519.js:576-582 | a window takes a digit between -127 and 128 off the scalar and, carry included, a factor 256 off its bound |
| `ScalarMult.WNaf` | src/crypto/noble-ed25519.js:568-597 | the signed-digit loop gives the n-fold base point for every n below 2^256 and never leaves the table |
| `ScalarMult.Multiply` | src/crypto/noble-ed25519.js:284-304 | the n-fold point, by the table or by double-and-add, exactly for the scalars the range test or the unsafe shortcuts let through; any other scalar is an error, whatever is assumed of the curve |
| `ScalarMult.StandardConstants` | src/crypto/noble-ed25519.js:36-44 | the constants are those of section 5.1 of RFC 8032: p, d = -121665/121666, the base point with y = 4/5 and even x, and the order |
| `Signature.Hash2ExtK` | src/crypto/noble-ed25519.js:415-426 | the clamped scalar modulo the order, its base-point multiple encoded, and the second half as prefix; every 64-byte hash gives a key |
| `Signature.ClampedNotZero` | src/crypto/noble-ed25519.js:418-421 | a clamped scalar is never a multiple of the order |
| `Signature.Sign` | src/crypto/noble-ed25519.js:436-448 | R = rB and S = r + k s modulo the order, as section 5.1.6 of RFC 8032 has it, where r and k are the whole 64-byte hashes read little-endian; fails exactly for a nonce that is zero modulo the order |
| `Signature.ModLIsCongruent` | src/crypto/noble-ed25519.js:411 | a hash is reduced as a whole: the result differs from the number all its bytes spell by a multiple of the order |
| `Signature.AcceptsAsPrescribed` | src/crypto/noble-ed25519.js:480-497 | what `Verify` accepts is what section 5.1.7 of RFC 8032 prescribes: S below the order and [8][S]B = [8]R + [8][k]A for the k the whole hash spells, and in strict mode an A that is not of small order |
| `Signature.Verify` | src/crypto/noble-ed25519.js:470-499 | an error for wrong lengths; false for every S of N or more whatever is assumed of the curve; otherwise, under the hypotheses, true exactly when both points decode, A is not of small order in strict mode, and 8 (R + kA - SB) = 0 |
| `Signature.SignatureIsAccepted` | src/crypto/noble-ed25519.js:436-499 | every signature made under a derived key with a nonce that is nonzero modulo the order is accepted, strictly and under zip215 |
| `Signature.NotSmallOrder` | src/crypto/noble-ed25519.js:331-333 | no public point of a key is of small order |
| `Signature.MessageIsHashed` | src/crypto/noble-ed25519.js:479-487 | two messages hash the same bytes exactly when they are equal or R or A is the identity |
| `Signature.IdentityIgnoresMessage` | src/crypto/noble-ed25519.js:479-497 | with R or A the identity a signature is accepted for all messages or for none |
| `Signature.HashesWhatWasReceived` | src/crypto/noble-ed25519.js:482-485 | the hashed bytes are R and A as received, and the message, exactly when both encodings are canonical |
| `Identity.SuffixOfEveryForm` | src/dht/attemptGuard.js:30-35 | an id as BigInt, as 66 and as 64 hex digits has one and the same key |
| `Identity.RegionIsIgnored` | src/dht/attemptGuard.js:20-35 | the region byte in front of an id never changes its key |
| `Identity.SameSuffixIff` | src/dht/attemptGuard.js:26-31 | two ids share a key exactly when they agree in their low 256 bits |
| `Identity.KeySpellsLowBits` | src/dht/attemptGuard.js:26-31 | the key of an id spells its low 256 bits in lower-case hex |
| `KeySpace.XorBit` | src/dht/AxonaPeer.js:7093 | a bit of a distance is set exactly where the two ids differ |
| `KeySpace.ClzBound` | src/utils/hexid.js:322-330 | at most c of the 264 bits of a number lead with zero exactly when the number reaches 2^(263 - c) |
| `Nearest.SortOrders` | src/dht/AxonaPeer.js:3427-3430 | sorting distinct ids by XOR distance puts them in strictly ascending distance |
| `Nearest.PrefixIsTop` | src/dht/AxonaPeer.js:3428-3431 | the first k of the sorted ids are the k nearest |
| `Strata.CrowdingFallsIff` | src/dht/DHTNode.js:208-211 | replacing one id by another lowers the sum of squared class counts exactly at a margin of two |
| `Gate.CountBands` | src/dht/AxonaPeer.js:3546-3551 | the count of every distance band |
| `Gate.BandDistance` | src/dht/AxonaPeer.js:3423 | a peer is in band g or an earlier one exactly when its distance reaches 2^(260 - 4 g); the last band takes the rest |
| `Gate.RetentionMap` | src/dht/AxonaPeer.js:3420-3448 | the four reasons of every entry with a candidate ranked in, and the distance of the kNear-th nearest peer held on a live channel |
| `Gate.FindVictim` | src/dht/AxonaPeer.js:3562-3585 | the first of the least vital evictable peers of the densest band, or none exactly when nobody is evictable; and whether the sponsor is a near improvement |
| `Admission.Table.Decide` | src/dht/AxonaPeer.js:3489-3595 | each decision in exactly its own case: below cap, the lane and its two refusals, a swap, a duty, no swap, and the exception for kNear of 0 |
| `Admission.Table.Commit` | src/dht/AxonaPeer.js:3346-3366 | the whole new table: the victim out and the sponsor in, connections and the lane's memory as the decision says, nothing on a refusal |
| `Admission.Table.AdmitOrImprove` | src/dht/AxonaPeer.js:3322-3325 | the table never grows past its cap; below it the sponsor gets in unless the last kJoin places are reached and the lane is not open to it; at cap or above it gets in exactly when there is a victim without a duty, by one gate swap; and every peer held for a reason is still there |
| `Admission.LaneStaysPaced` | src/dht/AxonaPeer.js:3505-3522 | the lane admits an identity once a window and nobody sooner than the cooldown after the last admission |
| `Admission.LaneSeenBound` | src/dht/AxonaPeer.js:3508-3518 | the lane's memory holds no more identities than admissions a cooldown apart fit in a window |
| `GateRuns.SwapSparesTheHeld` | src/dht/AxonaPeer.js:3565-3593 | a swap takes no peer held near, in a sparse band, for service or for duty |
| `GateRuns.SwapKeepsFloors` | src/dht/AxonaPeer.js:3368-3383 | a swap takes no band below the sparse floor, and nobody from a band at or below it |
| `GateRuns.SwapKeepsNear` | src/dht/AxonaPeer.js:3553-3567 | the near set after a swap is the one the decision ranked, sponsor included |
| `GateRuns.SwapLowersMeasure` | src/dht/AxonaPeer.js:3303-3310 | every swap lowers the pair (sum of the near distances, sum of squared band counts) lexicographically, and a near improvement its first part |
| `GateRuns.SwapRunsEnd` | src/dht/AxonaPeer.js:3303-3310 | every run of swaps over fixed stale channels is no longer than a number the first table fixes, and keeps the table's size |
| `GateRuns.NoTableReturns` | src/dht/AxonaPeer.js:3303-3310 | no table comes back in such a run, so no swap or sequence of swaps is undone |
| `GateRuns.NearImprovesIff` | src/dht/AxonaPeer.js:3563-3564 | a sponsor is a near improvement exactly when the near places are full and it takes one of them |
| `GateRuns.EvictableIffSwapHelps` | src/dht/AxonaPeer.js:3562-3577 | the gate may give up a peer that nothing of place holds exactly when the swap is a near improvement or lowers the crowding of the bands |
| `GateRuns.VictimGoesFirst` | src/dht/AxonaPeer.js:3568-3581 | of the peers it may give up the gate takes one of the densest band, there the least vital, of these the first in the table |
| `GateRuns.VictimIsUnique` | src/dht/AxonaPeer.js:3568-3585 | the gate names one victim and no other, and one whenever it may give up anybody |
| `GateRuns.VictimLowersCrowdingMost` | src/dht/AxonaPeer.js:3568-3581 | no other peer the gate may give up would leave the bands less crowded |
| `LookupWalk.WalkPrev` | src/dht/AxonaPeer.js:203-210 | the node before the last occurrence of `self` on a path, or none when it is first or absent |
| `LookupWalk.ResultReturns` | src/dht/AxonaPeer.js:204-210 | on a path without repeats every hand-back moves one place nearer the originator, and reaches it exactly at the first |
| `LookupWalk.ResultCirclesOnRevisit` | src/dht/AxonaPeer.js:204-210 | on a path with a repeat a result can circle forever |
| `LookupWalk.Candidates` | src/dht/AxonaPeer.js:7117-7159 | all unvisited ids nearer the target than this node, of neighbours not known dead and of the incoming pool; when there are none, the unvisited live neighbour nearest the target; empty only when every neighbour is visited or known dead |
| `LookupWalk.PickNext` | src/dht/AxonaPeer.js:7189-7201 | the nearest candidate worth another try, or none exactly when there is no such candidate |
| `LookupWalk.PickIsNearestLeft` | src/dht/AxonaPeer.js:7189-7201 | what is picked is the nearest of the candidates neither tried nor visited, dead or unconnected, and nothing exactly when none of these is left |
| `LookupWalk.SendOn` | src/dht/AxonaPeer.js:7201-7386 | re-selection ends; every hop tried after the first was picked after a dead edge, and the loop ends without a send only when a send failed otherwise or nothing is left to pick; the walk is charged for the hop that was sent and no other |
| `LookupWalk.RetriesTakeNearest` | src/dht/AxonaPeer.js:7189-7201 | each later hop follows a hop without a channel or a lost edge and is the nearest candidate still live, connected, unvisited and untried |
| `LookupWalk.GivesUpOnlyWithNobodyLeft` | src/dht/AxonaPeer.js:7322-7386 | with re-selection on, such a hop ends the walk only when no such candidate is left |
| `LookupWalk.Step` | src/dht/AxonaPeer.js:7088-7386 | ends in each way exactly under its own condition, or goes on by one candidate: first to the target when it is a live neighbour, to a nearer id when one is known, else to the unvisited live neighbour nearest the target |
| `LookupWalk.HopOfStep` | src/dht/AxonaPeer.js:7117-7187 | a step goes to the target when that is a neighbour, to a nearer id when it knows one, and otherwise to the unvisited live neighbour nearest the target |
| `LookupWalk.StalledHasNobody` | src/dht/AxonaPeer.js:7145-7157 | a step that stalls has no unvisited live neighbour and knows none nearer in the incoming pool |
| `LookupWalk.StepKeepsWalk` | src/dht/AxonaPeer.js:7236-7242 | a forwarded walk again names no node twice, ends in its holder, and has everything it visited marked |
| `LookupWalk.BranchNeverRevisits` | src/dht/AxonaPeer.js:7109-7116 | no branch of a lookup visits a node twice, takes more than MAX_HOPS hops or goes on past the target |
| `LookupWalk.BranchPathDistinct` | src/dht/AxonaPeer.js:7236-7242 | the path the last step of a branch leaves extends its frame's and names no node twice |
| `LookupWalk.EveryResultReturns` | src/dht/AxonaPeer.js:1014-1024 | the result of a branch returns to the originator from each of its nodes in as many hand-backs as hops led there, through the same nodes, on the path the last step left and on any longer one without repeats that a next hop answers with |
| `WalkSettlement.Originator.Begin` | src/dht/AxonaPeer.js:7393-7408 | a new walk is pending before its first step |
| `WalkSettlement.Originator.Done` | src/dht/AxonaPeer.js:7409-7422 | settles a pending walk; a result for any other walk changes nothing |
| `WalkSettlement.Originator.DeadlinePassed` | src/dht/AxonaPeer.js:7399-7403 | settles the walk unless it is settled |
| `WalkSettlement.Originator.SettlePending` | src/dht/AxonaPeer.js:1559-1565 | settles every pending walk and nothing else |
| `WalkSettlement.SettlesOnceByFirst` | src/dht/AxonaPeer.js:7393-7427 | under any interleaving of results, deadlines and stops a started walk that some event ends is settled exactly once, with what the first such event brought |
| `WalkSettlement.StopSettlesAll` | src/dht/AxonaPeer.js:1556-1565 | after a stop nothing is pending and every walk ever started is settled |
| `RoutedWalk.TwoHops` | src/dht/AxonaPeer.js:5770-5880 | the nearest adjacent neighbour off the path that is nearer, or else the usable peer whose answer named a nearer node first, and nothing exactly when there is neither |
| `RoutedWalk.FallbackHop` | src/dht/AxonaPeer.js:5682-5699 | the bridge when it is eligible, else the nearest usable peer at any distance, and none exactly when neither is left |
| `RoutedWalk.Handle` | src/dht/AxonaPeer.js:1295-1450 | every outcome exactly under its own condition: the selectors in their order (return route, named peer, greedy, lookahead, fallback), each hop outside the carried path, the hop limit only for a frame with a hop to take, and a frame with one hop more, the remembered path, and the named peer or rest of the return route its selector gives |
| `RoutedWalk.Send` | src/dht/AxonaPeer.js:1393-1450 | re-selection ends: each later hop is the nearest usable peer off the path, not tried and nearer than this node, taken after a dead edge and without its named peer and return route; the loop gives up only when a send failed otherwise or no such peer is left |
| `RoutedWalk.RetriesTakeNearest` | src/dht/AxonaPeer.js:1398-1424 | each later hop follows a closed channel or a lost edge and is nearer than this node and the nearest usable peer not tried |
| `RoutedWalk.GivesUpOnlyWithNobodyLeft` | src/dht/AxonaPeer.js:1417-1485 | with re-selection on, such a hop ends the send only when no usable peer not tried is nearer than this node |
| `RoutedWalk.ForwardsToOpen` | src/dht/AxonaPeer.js:1295-1331 | a forwarded frame goes to a live, connected peer off its path, and never straight back to the sender of one without a path |
| `RoutedWalk.ChosenIsReachable` | src/dht/AxonaPeer.js:1318-1331 | no selector names a dead-marked or unconnected peer, and without a transport that can say a named one is a table entry |
| `RoutedWalk.ReturnRouteFirst` | src/dht/AxonaPeer.js:1314-1325 | a return route is taken exactly while its first node is open |
| `RoutedWalk.NamedPeerFirst` | src/dht/AxonaPeer.js:1326-1331 | a frame without a return route goes to the peer it names whenever that peer is reachable and off the path |
| `RoutedWalk.GreedyIsNearest` | src/dht/AxonaPeer.js:1332-1341 | a greedy hop is nearer than this node, and no open neighbour of either table is nearer than it |
| `RoutedWalk.LookaheadIsNearer` | src/dht/AxonaPeer.js:1342-1350 | a lookahead goes to a nearer neighbour, or to one whose answer was the first to name a nearer node, and names that node in the frame |
| `RoutedWalk.FallbackIsBridgeOrNearest` | src/dht/AxonaPeer.js:1377-1387 | a node that cannot serve hands the frame to the bridge while that is open, and else to the nearest open neighbour |
| `RoutedWalk.TerminalIsMinimum` | src/dht/AxonaPeer.js:1342-1387 | whoever stops as a terminal, or falls back, knows no open neighbour nearer the target and heard of no nearer node from one; one that stops for want of a capable peer has no open neighbour and no open bridge at all |
| `RoutedWalk.OriginRouteFirst` | src/dht/AxonaPeer.js:6641-6650 | the originator takes a return route exactly while a channel to its first node is open |
| `RoutedWalk.OriginTerminalIsMinimum` | src/dht/AxonaPeer.js:6650-6690 | an originator that stops as a terminal knows no live, connected neighbour nearer and heard of no nearer node from one |
| `RoutedWalk.RouteIsFollowed` | src/dht/AxonaPeer.js:1314-1325 | a message sent along an open return route visits its nodes in order, up to SIGNAL_RPATH_MAX of them |
| `RoutedWalk.Originate` | src/dht/AxonaPeer.js:6634-6774 | the same for the first hop, with the originator alone on the path, a return route only over an open channel, and no look at the hop limit |
| `RoutedWalk.OriginBeginsWalk` | src/dht/AxonaPeer.js:6634-6774 | what the originator sends begins a routed walk |
| `RoutedWalk.ForwardExtendsWalk` | src/dht/AxonaPeer.js:1295-1450 | what a forwarder sends extends it by one hop |
| `RoutedWalk.NoShortCircle` | src/dht/AxonaPeer.js:1295-1305 | any PATH_MEMORY + 2 consecutive nodes of a routed walk are pairwise distinct |
| `RoutedWalk.ShortExactlyFromTwo` | src/dht/AxonaPeer.js:1388-1391 | every routed walk takes fewer than MAX_HOPS hops exactly when MAX_HOPS is at least two |
| `RoutedWalk.MemoryBoundsPath` | src/dht/AxonaPeer.js:1440-1445 | the carried path stays within the memory exactly when the memory is not one or the path was empty |
| `RoutedWalk.MemoryOneNeverRevisits` | src/dht/AxonaPeer.js:1440-1445 | with a memory of one the whole path is kept and no node is ever revisited |
| `ClosestSearch.FindClosestSet` | src/dht/AxonaPeer.js:1197-1215 | the bounded insertion returns the first K of the table sorted by XOR distance, and throws exactly for K = 0 and a table that is not empty |
| `ClosestSearch.KNearestIsTop` | src/dht/AxonaPeer.js:6612-6615 | the first K of distinct ids so sorted are the K nearest, in ascending distance |
| `ClosestSearch.AsksTheNearest` | src/dht/AxonaPeer.js:6560-6575 | a round asks the alpha nearest of the ids heard of and not yet visited, whether among the first K or beyond them |
| `ClosestSearch.HeardWhatWasTold` | src/dht/AxonaPeer.js:6581-6602 | what a search has heard of is what it began with and what the peers it probed named, and it probed exactly whom it visited but itself and those it skipped |
| `ClosestSearch.EndedIsComplete` | src/dht/AxonaPeer.js:6566-6609 | a search that ended before its last round has visited the K nearest of all it heard, exactly when alpha is positive or K is 0 |
| `ClosestSearch.FindKClosest` | src/dht/AxonaPeer.js:6523-6627 | from the table and itself, round after round visits the alpha nearest unvisited and hears what those probed answer, until nobody is left to ask, a round past completion named nobody new, or the rounds are used up; returns the K nearest of all it heard, ascending, with nobody probed twice and never itself |
| `AttemptGuard.Guard.Allow` | src/dht/attemptGuard.js:80-88 | whether the identity may be dialed now: off its path backoff, not in flight, past its next time, and when expired only under expiryRefill |
| `AttemptGuard.Guard.AllowThenBegin` | src/dht/attemptGuard.js:80-129 | a dial site's pair issues the next token exactly when it was allowed |
| `AttemptGuard.Guard.End` | src/dht/attemptGuard.js:138-157 | acts exactly on the live token and a matching incarnation; a bind clears the entry, a failure backs off or expires it |
| `AttemptGuard.Guard.Attach` | src/dht/attemptGuard.js:161-168 | records the incarnation for the live token alone |
| `AttemptGuard.Guard.Release` | src/dht/attemptGuard.js:175-183 | acts exactly on the live token, counts no attempt, and keeps an entry with anything on record |
| `AttemptGuard.Guard.Sweep` | src/dht/attemptGuard.js:188-194 | ends every overdue attempt as a failure, once each, and nothing else, and returns how many |
| `AttemptGuard.Guard.OnFreshRecord` | src/dht/attemptGuard.js:204-220 | refills at most once a window; a live attempt keeps its token, start and incarnation |
| `AttemptGuard.Guard.DeferPath` | src/dht/attemptGuard.js:93-103 | defers the identity by the doubled, capped and then jittered cooldown it returns |
| `AttemptGuard.Guard.PathDelivered` | src/dht/attemptGuard.js:106-114 | resets the path backoff and drops an entry with nothing else on record |
| `AttemptGuard.CooldownKeepsCapIff` | src/dht/attemptGuard.js:97-99 | no draw takes a cooldown past its cap exactly when half as much again as the capped backoff still rounds within it |
| `AttemptGuard.CooldownPassesCap` | src/dht/attemptGuard.js:97-99 | a cooldown of 840 s under a cap of 600 s |
| `AttemptGuard.CooldownDoubles` | src/dht/attemptGuard.js:97-98 | without a draw the first cooldown is the base, each next one twice the last, and none above the cap |
| `AttemptGuard.CooldownSpread` | src/dht/attemptGuard.js:99 | a draw moves the cooldown by at most half of it either way, up to rounding, and the middle draw not at all |
| `GuardRuns.StormBound` | src/dht/attemptGuard.js:118-157 | in any stretch of any run an identity's counted failures stay within one budget for each refill and bind in it and one more, plus the attempts begun while expired, of which there are none with expiryRefill off |
| `GuardRuns.BareMaximumIff` | src/dht/attemptGuard.js:151-155 | with expiryRefill off every run keeps to maxAttempts * (1 + refills + binds) exactly when maxAttempts is positive |
| `GuardRuns.RefillsPaced` | src/dht/attemptGuard.js:204-210 | any two granted refills of an identity are as many windows apart as there are refills between them, whatever the clock did |
| `GuardRuns.RefillsInInterval` | src/dht/attemptGuard.js:204-210 | in any interval of time at most one refill more than the windows that fit in it |
| `GuardRuns.StormBoundOverSpan` | src/dht/attemptGuard.js:118-220 | for a stretch whose refills fall within a span: both bounds together |
| `GuardRuns.BeginsConserved` | src/dht/attemptGuard.js:118-194 | in any stretch, what was in flight and what began is what failed, bound, was released or is in flight |
| `GuardRuns.RunKeepsTokens` | src/dht/attemptGuard.js:118-129 | after any run live tokens are distinct, were issued, and none of them has completed |
| `GuardRuns.TokenActsOnce` | src/dht/attemptGuard.js:131-183 | no token completes two attempts |
| `GuardRuns.OnlyCompletionEnds` | src/dht/attemptGuard.js:131-220 | an attempt in flight ends by the completion of its own token alone; any other event leaves its token, start and, but for an attach, its incarnation |
| `GuardRuns.IncarnationIsOwn` | src/dht/attemptGuard.js:143-168 | while no release leaves an incarnation behind, an attempt's incarnation is the one attached to it |
| `GuardRuns.ReleaseLeaksIncarnation` | src/dht/attemptGuard.js:175-183 | the next attempt starts with the released one's incarnation exactly when the release kept an entry that had one; then that channel's events end it and no other named channel's do |
| `GuardRuns.LeakIsReachable` | src/dht/attemptGuard.js:175-183 | a run of six events that ends so |
| `GuardPacing.EndLeaves` | src/dht/attemptGuard.js:138-157 | a completion acts exactly on the live attempt and, when both name one, its own channel incarnation; a bind leaves no record, a failure one attempt more |
| `GuardPacing.ReleaseLeaves` | src/dht/attemptGuard.js:175-183 | a release ends the live attempt alone and leaves the count, the expiry and the backoffs on record |
| `GuardPacing.SweepLeaves` | src/dht/attemptGuard.js:188-194 | a sweep fails exactly the attempts in flight for longer than it allows |
| `GuardPacing.FreshLeaves` | src/dht/attemptGuard.js:204-220 | a fresh record is honoured exactly once a window has passed since the last; budget and backoffs are then new and a live attempt goes on |
| `GuardPacing.DeliveredLeaves` | src/dht/attemptGuard.js:106-114 | a delivery over the path clears the path backoff and nothing else on record |
| `GuardPacing.DeferLeaves` | src/dht/attemptGuard.js:93-103 | a non-delivery over the path counts once, up to thirty, and touches nothing but the path backoff |
| `GuardPacing.RetryBacksOff` | src/dht/attemptGuard.js:151-156 | in any run, after the n-th counted failure since a clean record the next attempt begins no sooner than baseMs * factor^(n - 1) after it, and once the budget is spent no sooner than a refill window, and only under expiryRefill |
| `GuardPacing.ExhaustedIsPaced` | src/dht/attemptGuard.js:120-129 | in any run an exhausted identity is not dialed twice within a refill window, whether or not the first attempt failed |
| `GuardPacing.PathBacksOff` | src/dht/attemptGuard.js:80-103 | in any run a confirmed non-delivery keeps the identity from being dialed, whichever site asks, until its cooldown is over or the path is known good |
| `DeadPeers.Marks.constructor` | src/dht/DeadPeers.js:101-120 | an empty table under the defaults and the overrides, each within its least value |
| `DeadPeers.Marks.Fail` | src/dht/DeadPeers.js:191-210 | writes a first mark or advances the schedule, leaves a policy mark, keeps the table sound, and returns the mark or nothing when it was refused |
| `DeadPeers.Marks.Add` | src/dht/DeadPeers.js:149-156 | a mark without a failure for an unmarked id, nothing for a marked one |
| `DeadPeers.Marks.MarkPolicy` | src/dht/DeadPeers.js:266-274 | a policy mark written, refreshed or refused at its bound; a loss mark becomes one |
| `DeadPeers.Marks.Delete` | src/dht/DeadPeers.js:158-164 | removes a mark of either kind, and reports whether there was one |
| `DeadPeers.Marks.Eligible` | src/dht/DeadPeers.js:171-184 | an unmarked id is eligible unless either table is full, a policy mark never, a loss mark when due; a due exhausted mark refills its token |
| `DeadPeers.Marks.Consume` | src/dht/DeadPeers.js:213-218 | charges an exhausted mark with a refill window |
| `DeadPeers.Marks.IssueIfEligible` | src/dht/DeadPeers.js:171-218 | an evaluation and, when it passes, the charge, as one step |
| `DeadPeers.Marks.AdmitWrite` | src/dht/DeadPeers.js:253-264 | room below the bound; at it the oldest exhausted-and-waiting loss mark goes, or the write is refused when there is none |
| `DeadPeers.RunSound` | src/dht/DeadPeers.js:191-274 | in every reachable table loss and policy marks are within their bounds, the policy count is exact, the latch is on at the bound and off below the hysteresis, and stamps are distinct |
| `DeadPeers.OnlyOldestWaitingEvicted` | src/dht/DeadPeers.js:250-264 | a mark leaves by a delete of its own id, or as the oldest exhausted-and-waiting loss mark when a new loss arrives at the bound |
| `DeadPeers.FullRefusesNew` | src/dht/DeadPeers.js:204 | at the bound with no mark waiting a new loss changes nothing |
| `DeadPeers.LatchHysteresis` | src/dht/DeadPeers.js:244-248 | the latch is on at the bound, off below M_marks - M_hyst and unchanged between, and never lifts when M_hyst is M_marks or more |
| `DeadPeers.EmptyTableUnlatched` | src/dht/DeadPeers.js:244-248 | an emptied table is not latched when M_hyst is below M_marks |
| `DeadPeers.DueNeverDecreases` | src/dht/DeadPeers.js:191-218 | once exhausted, a retained mark's due time never decreases under a clock that does not step back |
| `DeadPeers.AttemptsApart` | src/dht/DeadPeers.js:171-218 | after an attempt is charged to a retained exhausted mark no evaluation passes for R_refill, whatever ran between; so attempts that do not overlap are that far apart |
| `DeadPeers.OverlappingAttempts` | src/dht/DeadPeers.js:48-50 | two attempts that are both evaluated before either is charged can go out at one time |
| `MarkRuns.RetryExactlyWhenDue` | src/dht/DeadPeers.js:171-237 | in any run, after the n-th failure since the mark was made the next attempt passes exactly from B * factor^(n - 1) after it on, once the budget is spent exactly from R_refill after it on, and the mark says what that failure said |
| `MarkRuns.DefaultWaits` | src/dht/DeadPeers.js:234-237 | the defaults wait 30, 60 and 120 seconds, and a minute for each attempt from the fourth failure on |
| `MarkRuns.OverridesAreTaken` | src/dht/DeadPeers.js:104-113 | an override is taken as it is, down to the least value of its option |
| `MarkRuns.TokenIsUnspentRefill` | src/dht/DeadPeers.js:171-217 | in any run a mark has a token exactly when it is exhausted and was granted a refill since its last failure or charge |
| `MarkRuns.FirstMarkedLeaves` | src/dht/DeadPeers.js:250-264 | in any run the mark a full table gives up was made before every other exhausted-and-waiting one, however often either failed since |
| `MarkRuns.EvictedHasNoRefill` | src/dht/DeadPeers.js:253-264 | in any run the mark a full table gives up has spent its budget and holds no unspent refill |
| `MarkRuns.PolicyStays` | src/dht/DeadPeers.js:178-197 | a policy mark is never due and stays until its own delete, and only another policy mark of the same id rewrites it |
| `MarkRuns.PolicyWrittenIff` | src/dht/DeadPeers.js:266-274 | a policy mark is written exactly while there is room, in the place of a loss mark if the id had one; at the bound nothing changes |
| `ConnectionBudget.DHTNode.SwapVictim` | src/dht/DHTNode.js:193-214 | the first peer of the lowest of the fullest other strata, exactly when one of them holds at least two peers more than the candidate's |
| `ConnectionBudget.StratumDistance` | src/dht/DHTNode.js:194-200 | a peer is in stratum s or a lower one exactly when its distance reaches 2^(263 - s) |
| `ConnectionBudget.CanSwapIffSpreads` | src/dht/DHTNode.js:201-211 | a node can swap exactly when giving up one of its peers for the candidate lowers the sum of squared stratum counts |
| `ConnectionBudget.VictimExistsIff` | src/dht/DHTNode.js:202-214 | there is a victim exactly when the node can swap |
| `ConnectionBudget.VictimGoesFirst` | src/dht/DHTNode.js:202-214 | the victim comes from a fullest stratum other than the candidate's, from the lowest of these, and is the first peer there |
| `ConnectionBudget.TrySwapIn` | src/dht/DHTNode.js:193-228 | frees one slot on both sides exactly then, and leaves every other link |
| `ConnectionBudget.TryConnect` | src/dht/DHTNode.js:140-179 | linked afterwards exactly when already linked or both ends have room or can swap and neither directional cap is met; the network stays sound; refused, it is unchanged save in the exact half-swapped case, where the caller has lost one peer |
| `ConnectionBudget.ConnectsIff` | src/dht/DHTNode.js:144-173 | the condition of `tryConnect` in plain terms: both directional caps have room as they stand, and at either end there is a free slot or a swap that frees one; and when the caller alone has swapped |
| `ConnectionBudget.Disconnect` | src/dht/DHTNode.js:254-260 | both ends let the link go, everything else stays, and the network stays sound |
| `ConnectionBudget.UnlinkedNetworkSound` | src/dht/DHTNode.js:87-109 | a network of unlinked nodes is sound: links at both ends, outbound at exactly one, all caps kept |
| `ConnectionBudget.AddSoundIff` | src/dht/DHTNode.js:144-161 | a link between two nodes not linked keeps the network sound exactly when there is room at every gate |
| `ConnectionBudget.JoinedSpreads` | src/dht/DHTNode.js:181-191 | a swap and the link that follows lower the swapping node's sum of squared stratum counts and empty none of its strata |
| `ConnectionBudget.RefusedLinkCostsPeer` | src/dht/DHTNode.js:170-173 | a sound network in which a refused `tryConnect` has dropped one of the caller's links |
| `Base64.DecodeOfEncode` | std/chunk.js:47-58 | decoding gives back what was encoded, as section 4 of RFC 4648 has it |
| `Base64.EncodeOfDecode` | std/chunk.js:47-58 | what is decoded as well-formed is only what encoding writes: encoding gives the text back |
| `Base64.GroupsSpellBytes` | std/chunk.js:47-52 | every three bytes become four characters that spell their 24 bits, first bits first, with a padding character for each byte the last group lacks |
| `Base64.DigitIsInAlphabet` | std/chunk.js:47-52 | the characters are those of Table 1 of RFC 4648 |
| `Chunk.FullChunkFits` | std/chunk.js:70-73 | for every message size: a full chunk's text fits what the envelope leaves exactly when that is at least 4 and 0 or 1 modulo 4, and is at most two characters over exactly when it is at least 2 |
| `Chunk.ChunkBytes` | std/chunk.js:82-99 | the manifest, then every chunk in order: its index, the count, and the base64 of its stretch |
| `Chunk.JoinedSlices` | std/chunk.js:90-97 | the chunks joined are the payload |
| `Chunk.Reassembler.Accept` | std/chunk.js:136-153 | every message's effect on its own file, and nothing on any other: refused, recorded, completed once, or the exception of a slot missing or a size too small |
| `Chunk.CompletesAtLastMissing` | std/chunk.js:127-134 | in any order, with duplicates, other files and malformed messages between, a file completes exactly at the message that brings its last missing index, with the original bytes, and never throws |
| `Chunk.CompletesOnce` | std/chunk.js:104-116 | such a delivery with every chunk at least once completes the file exactly once, one without some chunk never |
| `Chunk.CompletedSaysManifest` | std/chunk.js:126-145 | a completed file has the payload's size and bytes, and the name, type and metadata of its manifest, or the defaults when none came before the last chunk |
| `Chunk.FirstChunkWins` | std/chunk.js:142-149 | while a file is incomplete the first chunk of every index stays, and a known count is replaced by a manifest alone |
| `Chunk.MessageUpdates` | std/chunk.js:142-149 | what a manifest names replaces what is on record and the rest stays; a chunk brings its slot and, when none is known, the count |
| `Chunk.FullFileEnds` | std/chunk.js:127-134 | a file ends exactly at the message that leaves as many slots as its count: with the slots in order and zeros up to the size announced, keeping no bytes, or with the exception of an index that is not there or a size too small |
| `Chunk.Reassembler.Deliver` | std/chunk.js:136-153 | over such a whole delivery the announcements under the file's id grow by exactly one with the original bytes, or by none when a chunk is missing |
| `Chunk.Reassembler.Missing` | std/chunk.js:154 | exactly the indices still awaited, once the count is known |
| `Durability.DurabilityLedger.Open` | src/pubsub/durability.js:48-52 | a new pending obligation, unless the id is empty or known; finished entries make way, oldest first |
| `Durability.DurabilityLedger.Prune` | src/pubsub/durability.js:222-231 | down to the cap: finished entries go, oldest first and no more than needed, pending ones stay |
| `Durability.DurabilityLedger.RecordOne` | src/pubsub/durability.js:130-135 | the classified outcome applied to one message, and the state it is left in |
| `Durability.DurabilityLedger.RecordTopic` | src/pubsub/durability.js:137-157 | the same for every pending message of a topic, counted by what became of them |
| `Durability.DurabilityLedger.ReclaimTerminal` | src/pubsub/durability.js:236-241 | drops exactly the finished entries, and says how many |
| `Durability.VerifiedOnlyByEvidence` | src/pubsub/durability.js:54-70 | a pending message becomes verified exactly by a dispatched full snapshot that somebody verified |
| `Durability.EndsExactly` | src/pubsub/durability.js:57-70 | a pending message ends exactly by a cancel, by no cohort, or by evidence that verifies, found nobody to try or spends the last attempt |
| `Durability.EndSaysHow` | src/pubsub/durability.js:57-77 | an ended obligation says how and when it ended; one still pending is as it was but for its attempts |
| `Durability.OpenTakesOldest` | src/pubsub/durability.js:48-52 | a new obligation starts pending with no attempts, and only at the cap do finished entries make way, oldest first and no more than needed |
| `Durability.TopicRecordCountsAll` | src/pubsub/durability.js:137-157 | a topic's record counts each of its pending messages once; a verified snapshot verifies them all, and without a cohort all expire |
| `Durability.ReclaimLeavesPending` | src/pubsub/durability.js:236-241 | reclaiming leaves exactly the pending obligations, as they were |
| `Durability.TerminalIsFinal` | src/pubsub/durability.js:57-59 | a finished entry that is kept is kept as it is |
| `Durability.EvidenceBounded` | src/pubsub/durability.js:57-70 | a message still pending, however long it waited, has had fewer evidence records than maxAttempts, or none |
| `Durability.CapHoldsIffPendingFit` | src/pubsub/durability.js:218-231 | after an open the ledger is within its cap exactly when its pending entries are |
| `RoleDurability.RoleScopedDurability.Open` | src/pubsub/durability.js:290-298 | at the node's ceiling every listed role first gives up its finished entries; then the obligation is opened, or refused when the node is still full; a role that is not listed is served alike and not counted |
| `RoleDurability.RoleScopedDurability.RecordOne` | src/pubsub/durability.js:301 | the operation on the role's own ledger, made when missing, and on no other, and the state the message is left in |
| `RoleDurability.RoleScopedDurability.RecordTopic` | src/pubsub/durability.js:302 | the same for a topic's outcome, and how many of its pending messages became what |
| `RoleDurability.UnlistedLeavesNode` | src/pubsub/durability.js:285-304 | an operation on a role that is not listed adds nothing to what the node counts and leaves every listed pending entry as it is |
| `RoleDurability.UnlistedRefusedIffPendingFill` | src/pubsub/durability.js:287-298 | an open on such a role is refused exactly when the listed roles' pending obligations fill nodeMax |
| `RoleDurability.NodeBudget` | src/pubsub/durability.js:287-298 | over any run, roles coming and going, the node's entries never exceed nodeMax |
| `RoleDurability.OpenRefusedIffPendingFill` | src/pubsub/durability.js:287-298 | a new obligation is refused exactly when the pending ones of all roles together fill nodeMax |
| `RoleDurability.OtherRolesUntouched` | src/pubsub/durability.js:244-262 | no operation on one role alters another's pending entries, or adds or changes any of its entries |
| `RoleDurability.PendingOutlivesOthers` | src/pubsub/durability.js:244-262 | a pending obligation stays as it is through any steps on other roles |
| `RoleDurability.VerifiedOnlyByOwnEvidence` | src/pubsub/durability.js:54-70 | in any run of the node a pending message becomes verified exactly by such evidence given to its own role |
| `RoleDurability.VerdictIsFinal` | src/pubsub/durability.js:57-59 | in any run of the node a finished entry stays as it is or goes, and only a new open of the same id takes its place |
| `RoleDurability.EvidencePerRole` | src/pubsub/durability.js:57-70 | in any run of the node a message still pending has had fewer evidence records on its own role than maxAttempts, or none |
| `AckProof.HexToBytes` | src/pubsub/ackProof.js:74-82 | the bytes of an even, non-empty hex text of the expected width in either case, nothing for any other text |
| `AckProof.BytesToHex` | src/pubsub/ackProof.js:84-88 | two lower-case digits a byte |
| `AckProof.HexRoundTrip` | src/pubsub/ackProof.js:74-88 | decoding what was encoded gives the bytes back |
| `AckProof.HexTextReads` | src/pubsub/ackProof.js:84-88 | the hex text of bytes spells the number they spell, most significant digit first |
| `AckProof.U64Be` | src/pubsub/ackProof.js:90-97 | the number's eight base-256 digits, most significant first |
| `AckProof.Concat` | src/pubsub/ackProof.js:99-106 | the chunks one after another |
| `AckProof.BuildTranscript` | src/pubsub/ackProof.js:121-163 | the transcript of the decoded fields, or the code of the first fault in the order of the checks |
| `AckProof.FaultIsFirst` | src/pubsub/ackProof.js:121-163 | the code is that of the first check that fails, and there is none exactly when purpose, operation, epoch and every field's width and digits are as they must be |
| `AckProof.Layout` | src/pubsub/ackProof.js:108-116 | 197 bytes, every field in its place whatever the others hold |
| `AckProof.DomainIsAscii` | src/pubsub/ackProof.js:108-116 | the transcript's first 25 bytes spell AXONA_INGEST_ACK_PROOF_V1 |
| `AckProof.TranscriptInjective` | src/pubsub/ackProof.js:108-116 | two sets of facts share their signed bytes exactly when they are equal |
| `AckProof.SignedBytesTellFacts` | src/pubsub/ackProof.js:121-163 | two valid field sets share their signed bytes exactly when they say the same, whether given as bytes or as hex in either case |
| `AckProof.SignAckProof` | src/pubsub/ackProof.js:170-187 | the frame of the signed transcript, the first fault, or the refusal of a signature that is not 64 bytes |
| `AckProof.VerifyAckProof` | src/pubsub/ackProof.js:197-238 | the first fault of the frame, a bad signature, or fields that say what was verified |
| `AckProof.FrameFaultIsFirst` | src/pubsub/ackProof.js:197-220 | a frame's checks come in the order operation, purpose, signature, key, and then those of the fields it names |
| `AckProof.FrameKeepsFacts` | src/pubsub/ackProof.js:170-220 | the verifier rebuilds exactly the facts the signer signed |
| `AckProof.FrameIsLowerCase` | src/pubsub/ackProof.js:175-186 | a frame writes every id but the message's in lower case, however the field was given |
| `AckProof.SignThenVerify` | src/pubsub/ackProof.js:170-238 | valid fields signed by a signer whose signatures verify are accepted, with the same facts |

## Left out

- Hypotheses: that 2^255 - 19 is prime (`PrimeField`), that the twisted Edwards law is complete, closed and associative
  on the curve (`CurveGroup`), and that the base point has order N (`BaseOrder`) are assumed where they are needed.
- SHA-512 and the acknowledgement's signer and verifier are arbitrary functions; WebCrypto, the asynchronous forms and
  random key generation are not modelled.
- WNaf: the table is computed on every call; the source caches it. The accumulators of dummy additions, which never
  reach a result, are not kept, and timing is not modelled.
- Hexadecimal input of the Ed25519 functions, and the detour of the little-endian codecs over hexadecimal text.
- Decide: vitality is an arbitrary function of the peer, the duties are a set that may change between asks, and two
  refusals of the source do not arise: an id always has a lane key, and a sponsor already held is not asked about.
- Table entries under the hexadecimal keys of older sessions, and keys that are no id.
- FindKClosest: whom the search holds for dead or unconnected and what the probed answer is a parameter of each round;
  the telemetry of routes and the nomination of candidates are left out.
- SwapRunsEnd: the stale channels stay the same through the run, as the source's comment on churn concedes; bridge,
  duties and vitality may change between any two swaps.
- Step: the choice by vitality and action potential, the random first hop and the synapses installed on the way are
  arbitrary choices among the candidates; traces, weights and latencies are left out.
- A walk handed to a neighbour in the same process shares its path by reference; here it is a value.
- Originator: walk numbers are never reused; the source's 32-bit counter beside the time of day is not modelled.
- A result lost on the way back is settled by the deadline alone; that the deadline passes is not claimed.
- Handle: whether a local handler consumes the message is a parameter; a frame of an older kernel without a path
  excludes its sender only, and the walk theorems are about frames with one. Peers of the incoming pool on a stale
  channel are taken to be filtered out before the pool is read, and no peer joins while a frame is being sent.
- DeadPeers: `clear` is not modelled, and durations and options are whole numbers.
- AttemptGuard: durations and the backoff factor are whole numbers; of the guard's counters only those of refills,
  coalesced records and ignored ends are kept, and the deficit backoff beside the guard is left out.
- ConnectionBudget: a node's limits are constant and nodes do not leave the network; victim choices of subclasses are
  not modelled.
- RoleScopedDurability: the list of roles is fixed for one facade object; that roles come and go is in the runs of
  `RoleDurability`, where a slot emptied by one role may be taken by another. A missing role, the facade's read-only
  queries, `record` with bare counts and `clear` are not modelled.
- Accept: what the platform's base64 decoder makes of text that is not well formed is a parameter; progress callbacks,
  publishing with verification and repair, and the receiving helper's timeout are left out. Sizes and counts are whole.
- VerifyAckProof: an operation name that every JavaScript object has, such as `toString`, is refused at once as
  `bad_op`; the source gets to the same refusal after the checks on purpose, signature and key. A verifier that throws,
  and a frame or a signer that is missing, are not modelled, nor is case folding outside hexadecimal text.
- Transports, persistence, pub/sub roles and repair, presence, anneal and warm-up, and the browser applications.
