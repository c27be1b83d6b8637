# NAPQES: a verified model

NAPQES encrypts text by multiplying each codepoint with an element of a prime key and adding a
derived addend. The tokens of the text are mixed with decoys at positions that only the key
holder can recompute. The repository carries the cipher in Rust, C and Python, a gateway that
wraps industrial protocol frames with it, a statistical test suite and a drone demonstration.
This project models the parts where being right is hard, and proves them right.

HMAC-SHA256 is an arbitrary function from key and message to 32 bytes everywhere except in
the modules on SHA-256, so every theorem about the cipher holds for any such function.
Where a theorem needs that tags cannot be forged, it says so as a hypothesis about the tags that
can be checked on the one input at hand (genuine outputs always meet it, under any HMAC); where it
needs distinct nonces, it says that too. Random draws, the floating-point square root and the v7
noise decision are parameters, so the theorems hold for all their values.

| modules | what they model |
|---|---|
| `Bytes`, `Arithmetic`, `ByteReader` | big-endian fields, XOR, quotients, the buffered reader of the Python decoders |
| `Derivation`, `Keyed`, `Tokens` | HMAC queries, the hidden schedule, token emission and recovery, the keystream |
| `Padding`, `Block` | padding profiles and the v8 block format |
| `Independence` | which HMAC answer decides which position, slot, keystream block and chunk |
| `Chunking`, `Stream`, `StreamDecode`, `StreamTheorems`, `StreamSession` | the v8 streaming format: both encoders, the Rust and C decoders, their agreement and round trip |
| `Incremental`, `Authenticity` | the incremental Python decoder; authenticity over all runs of all encryptors under one key |
| `Primes` | primality, key validation, key generation, seed expansion |
| `Sha256`, `Sha256Fips`, `Sha256Vector`, `CHmac` | the C hash context and HMAC against FIPS 180-4 and RFC 2104, and HMAC as one of the oracles |
| `Varint`, `VarintStream`, `VarintTheorems`, `VarintSession`, `VarintAuthenticity` | the older LEB128 streams |
| `OtFrame`, `OtGateway`, `OtDelivery`, `OtBlock` | the gateway envelope, the replay window under concurrent handlers, what reaches its log, and the envelope over the block format |
| `Crc`, `CrcPolynomial`, `Dnp3` | the DNP3 CRC and link frames |
| `Hybrid` | the transcript of the hybrid key exchange |
| `BerlekampMassey`, `MatrixRank` | two GF(2) algorithms of the statistical suite (NIST SP 800-22 Rev 1a, sections 2.10 and 2.5) |
| `Planner`, `PlannerLimits` | the breadth-first planner of the drone firmware, and which goals it finds |

Loops of the source are methods with loops, and its stateful objects are classes; each is proved
against a function, and the theorems are about the functions. Records of functions (`Schedule`,
`Session`, `Core`, `Cipher`) stand for what a key and nonce determine; `Keyed.ScheduleOf`,
`StreamSession.SessionOf`, `VarintSession.SessionV7` and `OtBlock.BlockCipher` build them from HMAC
and a prime key, and `Sha256Fips.Fips` holds the functions and constants of the standard.

## Findings

Four properties one might expect do not hold of the code. For each of them the exact condition is
proved.

- The Python stream decoder stops at the sentinel and never looks behind it, so a stream with
  bytes appended completes there and is refused by the Rust and C ports. It completes exactly when
  some prefix of its input is a stream the sequential decoder accepts
  (`Incremental.CompletesOnPrefix`, `Incremental.TrailingBytes`).
- The C stream decoder refuses text above U+00FF that the Rust decoder returns; there is no other
  difference (`StreamTheorems.DecodersAgree`, `StreamTheorems.RoundTripInC`).
- The planner can miss a reachable goal: its queue never reuses entries and drops cells once 4096
  have been queued. It finds a goal exactly when there is a path and fewer than 4096 cells come
  before it, a cell coming before another if it has a route that is shorter than every route of
  the other, or as long and lower in the order of the direction table (`Planner.Planner.PlanPath`).
  From the corner of an empty grid these are the goals at most 51 steps away, and those at 52 steps
  that are at least 13 cells along x (`PlannerLimits.ReachExactly`, `PlannerLimits.PlanOnEmptyGrid`).
  A path it returns is shortest all the same.
- `reconstruct` narrows the length field to a byte. Extraction returns the payload exactly when it
  has at most 250 bytes (`Dnp3.PayloadRoundTrip`); beyond that it returns a shorter payload or
  slices out of bounds (`Dnp3.ExtractReconstructed`, `Dnp3.LongPayloadPanics`).

## Model

| member | source | states |
|---|---|---|
| Stream.EncryptStream | rust/src/lib.rs:2307-2359 | the one-shot loop (buffer F codepoints, fill the last chunk, masked-count sentinel) outputs header, frames and sentinel of the cut message, or refuses at the chunk limit |
| Stream.RefusedExactly | rust/src/lib.rs:2361-2373 | a message is refused if and only if it is longer than F * (2^32 - 1) codepoints |
| Stream.StreamV8Encryptor.constructor | rust/src/lib.rs:2641-2671 | a fresh encoder has pushed and emitted nothing |
| Stream.StreamV8Encryptor.Push | rust/src/lib.rs:2672-2702 | a codepoint is refused exactly at the limit or after the end; a frame comes out exactly when the F-th codepoint of a chunk goes in; a refusal changes nothing |
| Stream.StreamV8Encryptor.Finish | rust/src/lib.rs:2704-2739 | header, all pushed frames and this output are together the one-shot encoding of everything pushed; the encoder is then closed, and a later push is refused |
| Stream.EncryptByPushing | rust/src/lib.rs:2613-2739 | driving the class over any message gives the one-shot result, refusals included |
| Chunking.ChunkCountExact | rust/src/lib.rs:2307-2359 | k chunks suffice for a message if and only if it has at most F * k codepoints |
| StreamDecode.DecryptSequential | rust/src/lib.rs:2459-2591 | the Rust loop with its pending chunk computes the frame-by-frame recursive decoder, error by error |
| StreamDecode.DecryptRandomAccess | C/napqes.c:1664-1763 | the C decoder (find the sentinel from the length, check it, then open the counted chunks by offset) computes its specification |
| StreamDecode.DecryptChunks | C/napqes.c:1715-1750 | the C chunk loop opens every counted frame and cuts only the last one, to the authenticated total |
| StreamTheorems.DecodersAgree | C/napqes.c:1664-1763 | on every byte string the C decoder accepts what the Rust decoder accepts and with the same text, except that it refuses text with a codepoint above 0xFF |
| StreamTheorems.AcceptedIsWhole | rust/src/lib.rs:2459-2591 | an accepted body is a whole number of frames followed by one 44-byte sentinel, within the chunk limit |
| StreamTheorems.TotalsAgree | C/napqes.c:1690-1714 | the bounds the C code puts on the total are equivalent to the Rust consistency test on the pending chunk |
| StreamTheorems.RoundTrip | rust/src/lib.rs:2307-2591 | decrypting the encryption returns the message exactly, for every F in [1, 16384] and every message within the limit, the empty one included |
| StreamTheorems.RoundTripInC | C/napqes.c:1664-1763 | the C decoder inverts encryption exactly for text within U+00FF and refuses any other |
| StreamSession.SessionValid | rust/src/lib.rs:2069-2208 | under any HMAC and usable key the derived chunk primitives have fixed sizes and opening inverts sealing |
| StreamSession.SealChunk | rust/src/lib.rs:2106-2119 | the emission, encoding and masking loops compute the sealed chunk |
| Independence.ChunksIndependent | rust/src/lib.rs:2069-2119 | changing the HMAC answer to the sub-nonce query of one chunk leaves the sealed bytes and the filler of every other chunk as they were |
| Independence.ChunksDiffer | rust/src/lib.rs:2069-2119 | for any two chunk indices there is an HMAC under which the same text is sealed differently |
| StreamSession.RoundTripUnderEveryOracle | rust/src/lib.rs:2307-2591 | for every HMAC function, master secret, key that validation accepts, associated data, nonce and frame size: accepted exactly up to the limit, and decrypts to the message |
| ByteReader.StreamReader.ReadN | napqes.py:2215-2228 | the buffered reader returns the next n bytes of the concatenated input however it is sliced, or nothing when fewer are left |
| Incremental.IncrementalDecoder.Advance | napqes.py:2243-2325 | one turn of the generator is one step of the abstract machine: chunk held back, predecessor released |
| Incremental.DecryptIncremental | napqes.py:2188-2325 | what is yielded and how the generator ends depends on the bytes, not on their slicing |
| Incremental.TrailingBytes | napqes.py:2243-2325 | bytes after an accepted stream: the generator completes with the same text, the sequential decoder refuses |
| Incremental.CompletesOnPrefix | napqes.py:2243-2325 | the generator completes with a text if and only if some prefix of its input is a stream the sequential decoder accepts with that text |
| Authenticity.YieldedIsPrefix | napqes.py:2243-2325 | after any number of turns on any faithful input, the yielded characters are a prefix of the genuine message, filler never among them |
| Authenticity.AcceptedIsGenuine | rust/src/lib.rs:2459-2591 | an accepted stream whose tags are faithful to a message is, byte for byte, the encryption of that message |
| Authenticity.IssuedByMatching | rust/src/lib.rs:2211-2247 | a stream tag some run issued can only verify under the frame size, nonce and associated data of that run |
| Authenticity.StreamAuthenticity | rust/src/lib.rs:2459-2591 | over any set of runs with distinct nonces, finished or abandoned, without forged tags: an accepted stream is one whole finished run byte for byte, under the same associated data, and decrypts to its message |
| Authenticity.IncrementalSafety | napqes.py:2243-2325 | without forged tags, at every turn on any input, what has been yielded is a prefix of the message of a run with this header, or nothing |
| Authenticity.CompletionIsGenuine | napqes.py:2243-2325 | if the generator completes, its input starts with one whole finished run and it yielded that run's message |
| Authenticity.GenuineUnforged | rust/src/lib.rs:2307-2359 | under any HMAC the whole output of a finished run meets the no-forgery hypothesis, so the authenticity theorems are not empty |
| Tokens.RunLongest | rust/src/lib.rs:2121-2153 | a noise run is the longest stretch of noise positions, cut at 19 |
| Tokens.LockStepBound | rust/src/lib.rs:948-1035 | the scan enters slot r at position at most 20 r, whatever the noise oracle says |
| Tokens.LockStep | rust/src/lib.rs:948-1035 | on a vector of 20 tokens a slot the truncation error is unreachable and only the schedule-selected tokens matter |
| Tokens.EmittedAt | rust/src/lib.rs:2121-2158 | every position of the output belongs to one slot, found from the position, and holds its real token, a decoy of its run, or top-up |
| Tokens.EmittedBelow | rust/src/lib.rs:2121-2158 | no token product wraps 64 bits: every emitted token is below 2^44 |
| Tokens.EmitTokens | rust/src/lib.rs:2121-2153 | the emission loop outputs exactly the scheduled tokens, topped up to 20 a codepoint |
| Tokens.RecoverExact | rust/src/lib.rs:985-1030 | a token is accepted as a codepoint if and only if it is the token the encoder produces for it |
| Tokens.RecoveredExactly | rust/src/lib.rs:948-1035 | recovery succeeds with a text if and only if the scheduled tokens carry that text |
| Tokens.RecoverTokens | rust/src/lib.rs:948-1035 | the recovery loop computes recovery slot by slot, errors included |
| Tokens.TokenRoundTrip | rust/src/lib.rs:948-1035 | what was emitted is recovered, for every schedule |
| Tokens.EncodeTokens | rust/src/lib.rs:1088-1094 | eight big-endian bytes a token |
| Tokens.DecodeTokens | rust/src/lib.rs:1158-1173 | the fixed-width reader computes the token vector and refuses a partial token |
| Tokens.EncodingRoundTrip | rust/src/lib.rs:1088-1173 | reading the fixed-width bytes of 64-bit tokens gives the tokens |
| Keyed.MakeKeystream | rust/src/lib.rs:745-759 | the block loop and truncation give byte i from block i / 32 |
| Independence.BlocksIndependent | rust/src/lib.rs:745-759 | one HMAC answer decides exactly the 32 keystream bytes of its block |
| Independence.KeystreamContinues | rust/src/lib.rs:745-759 | a longer keystream continues a shorter one |
| Keyed.Seal | rust/src/lib.rs:1768-1772 | emission, encoding and masking by their loops compute the sealed blob |
| Keyed.Open | rust/src/lib.rs:1847-1851 | unmasking, decoding and recovery by their loops compute the opened text |
| Keyed.OpenSealed | rust/src/lib.rs:1752-1862 | masking, serialisation and emission are undone in turn, for every nonce and text |
| Derivation.DomainSeparation | rust/src/lib.rs:327-575 | the map from queries of all thirteen domains to HMAC messages is injective whenever the fields fit their widths |
| Independence.NoiseIndependent | rust/src/lib.rs:549-560 | whether a position is noise is decided by the HMAC answer for that position and no other |
| Independence.AddendsIndependent | rust/src/lib.rs:388-402 | likewise the addend of a slot |
| Independence.DecoysIndependent | rust/src/lib.rs:404-432 | likewise character and addend of a decoy |
| Independence.FillersIndependent | rust/src/lib.rs:716-734 | likewise each padding character |
| Independence.KeyInTurn | rust/src/lib.rs:2121-2153 | the slots take the elements of the key in turn |
| Independence.FormatsApart | rust/src/lib.rs:1618-1628 | two formats have different subkeys under some HMAC, so that no query gets the same answer in both |
| Independence.CountsIndependent | rust/src/lib.rs:2055-2067 | the count field of a sentinel is masked by the HMAC answer for its own chunk count |
| Derivation.ThresholdRange | rust/src/lib.rs:539-547 | the noise threshold lies in [0.75, 0.99) of 2^64 |
| Derivation.MulHi64Exact | C/napqes.c:241-254 | the limb code computes floor(a * b / 2^64) for all 64-bit a and b |
| Padding.LeastRung | rust/src/lib.rs:647-701 | a profile returns its lowest reachable power of two strictly above n, and refuses if and only if it has none |
| Padding.StrideCeiling | rust/src/lib.rs:672-683 | the coarse profile rounds up to the least exponent on its stride |
| Padding.PadToBlock | rust/src/lib.rs:716-734 | the padding loop writes prefix, message and derived filler |
| Padding.UnpadPadded | rust/src/lib.rs:769-795 | the length prefix recovers the message from its padded block |
| Block.EncryptBlock | rust/src/lib.rs:1752-1779 | the block encryptor computes nonce, masked block and tag, or the refusal of the length or profile check |
| Block.Utf8Injective | rust/src/lib.rs:1752-1779 | no two texts have the same UTF-8 |
| Independence.NoncesIndependent | rust/src/lib.rs:1664-1675 | every pair of message and associated data has a synthetic nonce of its own |
| Block.DecryptBlock | rust/src/lib.rs:1808-1862 | the block decryptor makes the checks in order (length, token count, tag, block size, tokens, prefix) |
| Block.LengthLaw | rust/src/lib.rs:1752-1779 | encryption succeeds exactly for admissible lengths, and the ciphertext has 48 + 160 * (B + 2) bytes, B the rung of the profile |
| Block.RoundTrip | rust/src/lib.rs:1752-1862 | decryption inverts encryption without being told the profile |
| Block.RoundTripUnderEveryOracle | rust/src/lib.rs:1740-1862 | the round trip for every HMAC function, master secret, key that validation accepts, associated data, message and profile |
| Block.Authentic | rust/src/lib.rs:1833-1862 | without a forged tag, whatever decrypts is one sent ciphertext byte for byte, under its own associated data |
| Block.GenuineUnforged | rust/src/lib.rs:1752-1779 | under any HMAC every sent ciphertext meets the no-forgery hypothesis |
| Primes.Isqrt | rust/src/lib.rs:194-205 | the correction loops reach the exact floor root from any starting value |
| Primes.TestPrime | rust/src/lib.rs:207-231 | trial division decides primality exactly for every 64-bit number, whatever the floating-point root was |
| Primes.ValidateKey | rust/src/lib.rs:462-522 | accepts exactly the keys of the policy, and each error names a real defect |
| Primes.BinarySearch | rust/src/lib.rs:277-281 | where a number is in the sorted index, or where it belongs |
| Primes.GeneratePrimes | rust/src/lib.rs:249-300 | the first `count` distinct primes drawn, or the exact error |
| Primes.KeptExactly | rust/src/lib.rs:274-290 | the primes kept from the draws are exactly the primes among the draws |
| Primes.KeptInOrder | rust/src/lib.rs:274-290 | each was kept when it was first drawn, after those kept before it |
| Primes.GenerateV8Primes | rust/src/lib.rs:1637-1655 | a key is returned if and only if range and count are admissible and the draws hold enough distinct primes; it is then the first of them and passes validation; each error has its own exact cause |
| Primes.ExpandSeedToPrimes | rust/src/kem.rs:157-177 | a completed expansion is the first thirteen distinct primes of the candidate sequence and passes validation; otherwise the counter ran out |
| Primes.CandidatesIndependent | rust/src/kem.rs:157-177 | every number of the key range can be the candidate of a counter, whatever the candidates of the other counters are |
| BerlekampMassey.MasseyBound | rust/src/bin/sts.rs:172-198 | a register that gets bit n right where one of length l fails has length at least n + 1 - l |
| BerlekampMassey.Massey | rust/src/bin/sts.rs:172-198 | the loop returns the linear complexity: some register of this length generates the sequence, none shorter does |
| MatrixRank.ClearColumn | rust/src/bin/sts.rs:389-392 | clearing xors the pivot row into exactly the rows that have a one in the column |
| MatrixRank.SwapKeepsSpace | rust/src/bin/sts.rs:386-388 | a row swap keeps the row space |
| MatrixRank.ClearingKeepsSpace | rust/src/bin/sts.rs:389-392 | clearing a column keeps the row space |
| MatrixRank.IndependentSize | rust/src/bin/sts.rs:380-395 | r independent rows span exactly 2^r vectors |
| MatrixRank.Gf2Rank | rust/src/bin/sts.rs:380-395 | elimination keeps the row space and returns its dimension: the first rows are independent, the rest are zero; for every matrix size |
| Planner.TreePathShortest | demos/drone/firmware_src/obstacle_avoidance.c:93-130 | paths in the search tree are shortest, whatever the full queue dropped |
| Planner.FewNearer | demos/drone/firmware_src/obstacle_avoidance.c:128-129 | cells strictly nearer than a queued one were all queued before it |
| Planner.FirstDifference | demos/drone/firmware_src/obstacle_avoidance.c:80-90 | the route order is lexicographic: of two routes of one length the lower one has the smaller direction where they first differ |
| Planner.QueuedIsEarlier | demos/drone/firmware_src/obstacle_avoidance.c:107-131 | every queued cell has a route before all routes of any cell that is not queued, so a full queue holds the first 4096 |
| Planner.FewEarlier | demos/drone/firmware_src/obstacle_avoidance.c:107-131 | every cell with a route before all routes of a queued one was queued before it |
| Planner.Planner.TraceBack | demos/drone/firmware_src/obstacle_avoidance.c:97-104 | following the parents writes the end of the tree path backwards |
| Planner.Planner.Explore | demos/drone/firmware_src/obstacle_avoidance.c:80-131 | the queue loop keeps the tree, the route order and the marks; without overflow it covers all that is reachable |
| Planner.Planner.PlanPath | demos/drone/firmware_src/obstacle_avoidance.c:75-134 | a path is found if and only if the goal is reachable and fewer than 4096 cells have a route before all of its own (shorter, or as long and first in the order of the direction table); it is then the end of a shortest one |
| PlannerLimits.ReachExactly | demos/drone/firmware_src/obstacle_avoidance.c:75-134 | from the corner of an empty grid every goal is reachable, and fewer than 4096 cells come before it if and only if it is at most 51 steps away, or 52 steps and at least 13 cells along x |
| PlannerLimits.PlanOnEmptyGrid | demos/drone/firmware_src/obstacle_avoidance.c:75-134 | started there, the planner finds exactly those goals |
| Sha256.PaddingIsShortest | C/sha256.c:80-89 | the padded message is whole blocks, with the shortest zero run that makes it so |
| Sha256.PaddingInjective | C/sha256.c:80-89 | below 2^61 bytes, different messages have different padded blocks |
| Sha256.CompressBlock | C/sha256.c:26-45 | the schedule loop and the eight assignments of a round, in their order, compute the recursive compression function, for any word functions |
| Sha256Fips.Digest256 | C/sha256.c:7-101 | with the constants and word functions of FIPS 180-4 the C code computes SHA-256 of the joined pieces |
| Sha256Vector.AbcDigest | C/sha256.c:7-101 | the digest of "abc" under these constants and functions is the one FIPS 180-4 publishes, proved round by round |
| Sha256Fips.Choice | C/sha256.c:19 | the choice function takes its second argument where the first has ones and its third elsewhere |
| Sha256Fips.MajorityAgrees | C/sha256.c:20 | where two arguments agree the majority function agrees with them |
| Sha256Fips.MajorityDecides | C/sha256.c:20 | where they differ the third decides |
| Sha256Fips.LoadOfBytes | C/sha256.c:28-31 | loading the four bytes of a word gives the word |
| Sha256Fips.Hmac256 | C/sha256.c:103-129 | and HMAC-SHA256 |
| Sha256.Sha256Ctx.constructor | C/sha256.c:47-54 | a new context has been fed nothing |
| Sha256.Sha256Ctx.Update | C/sha256.c:56-78 | whatever is buffered, the context then stands for the old input followed by the new |
| Sha256.Sha256Ctx.Final | C/sha256.c:80-97 | the digest of the padded block chain of everything fed in |
| Sha256.Sha256OfPieces | C/sha256.c:56-97 | however a message is cut into updates, the digest is that of the whole |
| Sha256.HmacOneShot | C/sha256.c:103-129 | HMAC of section 2 of RFC 2104 for every key length |
| Sha256.HmacOfEmptyKey | C/sha256.c:103-129 | with an empty key the inner hash runs over the pad 0x36 and the outer one over 0x5c |
| Sha256.PadsOfKey | C/sha256.c:106-117 | each pad byte gives back the key byte, zero past the end of a short key |
| Sha256.HmacWithSep | C/napqes.c:144-175 | the streamed form is the HMAC of separator, nonce and tail joined |
| CHmac.Derive | C/napqes.c:144-275 | every nonce-indexed digest of the C port is the answer of one fixed oracle to the abstract query, so the theorems for all oracles apply to it |
| OtFrame.AadInjective | rust/src/ot_frame.rs:82-90 | the 17 bytes determine protocol, device and sequence number |
| OtFrame.WrapPdu | rust/src/ot_frame.rs:328-342 | an envelope is magic, associated data, length and blob |
| OtFrame.ParseExactly | rust/src/ot_frame.rs:347-372 | a buffer parses to a header and blob if and only if it starts with their envelope |
| OtFrame.VerifyWrapped | rust/src/ot_frame.rs:328-395 | a wrapped frame verifies to itself whatever follows it |
| OtFrame.SequenceCounter.NextSeq | rust/src/ot_frame.rs:155-161 | the next number is one more than the last of this device; at the top of the range it panics and stays unusable |
| OtFrame.SequenceCounter.ValidateRecv | rust/src/ot_frame.rs:165-184 | accepted exactly when above the last number of this device, and then recorded |
| OtFrame.UnwrapPdu | rust/src/ot_frame.rs:375-395 | an envelope that does not verify leaves the window alone; one that does is offered to it |
| OtGateway.AcceptedExactly | rust/src/ot_frame.rs:165-184 | in every interleaving a frame is accepted if and only if its number exceeds every earlier one of its device |
| OtDelivery.PendingExactly | rust/src/ot_frame.rs:375-395 | what a handler holds is the envelope it verified since its last commit, and nothing else |
| OtDelivery.Delivery | rust/src/ot_frame.rs:375-395 | an envelope that verifies, read by an idle handler and committed after any events of other handlers, ends the log with an attempt of its frame, accepted if and only if its number is above all earlier ones of its device |
| OtDelivery.OtherwiseUnchanged | rust/src/ot_frame.rs:375-395 | nothing else is ever logged |
| OtDelivery.LoggedFrom | rust/src/ot_frame.rs:375-395 | every attempt in the log was committed by one event |
| OtDelivery.HandleEgress | rust/src/bin/ls_gateway.rs:315-356 | the receiving loop forwards exactly the PDUs of the attempts that the run accepts, and leaves the window of the run |
| OtGateway.AcceptedIncrease | rust/src/ot_frame.rs:375-395 | accepted numbers of a device strictly increase |
| OtGateway.NeverTwice | rust/src/ot_frame.rs:375-395 | no frame is accepted twice, through whichever handlers it is replayed |
| OtGateway.JunkChangesNothing | rust/src/bin/ls_gateway.rs:414-425 | the run is the run without its unauthenticated envelopes |
| OtGateway.IssueNumbers | rust/src/ot_frame.rs:155-161 | numbers of a device run 1, 2, 3, ... without a gap |
| OtGateway.EveryRequestNumbered | rust/src/ot_frame.rs:155-161 | every request is numbered, unless one device has used all 2^64 - 1 numbers |
| OtGateway.AcceptedInOrder | rust/src/ot_frame.rs:375-395 | without forgeries a frame is accepted if and only if every frame of its device committed before it was issued before it, despite losses, junk and replays |
| OtDelivery.AllAccepted | rust/src/ot_frame.rs:375-395 | genuine frames of a device that are committed in the order of issue are all logged and all accepted |
| OtBlock.FrameRoundTrip | rust/src/ot_frame.rs:328-395 | over the block format a PDU wraps if and only if it has at most 65535 bytes, and verifies back to itself |
| OtBlock.VerifiedIsWrapped | rust/src/ot_frame.rs:375-395 | without a forged tag, whatever verifies starts with the envelope of one wrapped frame and yields that frame |
| Crc.PrecomputeTable | rust/src/protocols/dnp3.rs:36-55 | entry i is the register after eight shifts of i |
| Crc.TableStep | rust/src/protocols/dnp3.rs:60-63 | one look-up equals feeding the eight bits of a byte |
| Crc.CrcByTable | rust/src/protocols/dnp3.rs:58-65 | the table loop computes the complemented register of the bit-by-bit form |
| Crc.StepsLinear | rust/src/protocols/dnp3.rs:43-50 | the shift register is linear over XOR |
| CrcPolynomial.CrcIsRemainder | rust/src/protocols/dnp3.rs:20-65 | the check value complements the remainder of the message, raised by 16, modulo the DNP3 generator polynomial over GF(2) |
| Crc.BurstDetected | rust/src/protocols/dnp3.rs:58-65 | messages of one length that differ only within two adjacent bytes never share a CRC |
| Dnp3.ExtractPayload | rust/src/protocols/dnp3.rs:108-139 | the checks in order, with the slice panic of a length field below five as an outcome |
| Dnp3.ReconstructFrame | rust/src/protocols/dnp3.rs:145-169 | header body with narrowed length, its CRC, and the payload |
| Dnp3.ExtractReconstructed | rust/src/protocols/dnp3.rs:108-169 | what extraction makes of any reconstructed frame, header fields included |
| Dnp3.PayloadRoundTrip | rust/src/protocols/dnp3.rs:108-169 | the payload comes back if and only if it has at most 250 bytes |
| Dnp3.LongPayloadPanics | rust/src/protocols/dnp3.rs:108-169 | payloads of 251 to 255 bytes: extracting the reconstructed frame slices out of bounds |
| Dnp3.ReconstructExtracted | rust/src/protocols/dnp3.rs:108-169 | reconstruction from an extracted header and payload is the received frame |
| Dnp3.TamperedHeaderRefused | rust/src/protocols/dnp3.rs:123-127 | no change within two adjacent bytes of the checked header is accepted, whether in its body, its CRC field or across the two |
| Varint.EncodeToken | napqes.py:743-750 | the shift loop writes the base-128 form |
| Varint.TakeSplit | napqes.py:1795-1811 | however the bytes are cut, the scan ends in the same state |
| Varint.EncodeChar | napqes.py:1672-1686 | the inner loop writes the noise run of a position and then the character |
| Varint.TextRoundTrip | napqes.py:1795-1811 | the scan of the emitted bytes yields the text whenever every noise run is finite |
| VarintStream.EncryptStreamAe | napqes.py:1620-1709 | character by character, the output is the frames of the whole masked text; it raises if and only if a length, an index or the keystream counter does not fit its field |
| VarintStream.DecryptStreamAe | napqes.py:1712-1811 | over any slicing, the loop computes the frame decoder on the concatenation, overflow of index and keystream counter included |
| VarintTheorems.AeRoundTrip | napqes.py:1620-1811 | for every frame size, slicing and trailing bytes, decrypting what the encoder can encode returns exactly the text though varints straddle frames |
| VarintAuthenticity.DecodeShows | napqes.py:1712-1811 | whatever is decoded, and however decoding ends, is the scan of frames that stand at the head of the stream with their tags; a complete stream goes on with its sentinel |
| VarintAuthenticity.TagsSeparate | napqes.py:1648-1708 | no two different tags of the older streams are computed over the same bytes |
| VarintAuthenticity.FramedSafety | napqes.py:1712-1811 | over any set of runs with distinct nonces, without forged tags: whatever is yielded, complete or not, is the beginning of the text of one run |
| VarintAuthenticity.FramedAuthenticity | napqes.py:1712-1811 | and a complete stream starts with the whole output of one finished run under the same associated data, and decodes to its text |
| VarintAuthenticity.UnframedAuthenticity | napqes.py:1461-1565 | an unframed stream that decodes completely is one finished run, byte for byte |
| VarintAuthenticity.GenuineUnforged | napqes.py:1406-1709 | under any HMAC the output of a finished run meets these hypotheses |
| VarintTheorems.EncryptStream | napqes.py:1406-1458 | nonce, masked text and tag |
| VarintTheorems.DecryptStream | napqes.py:1461-1565 | over any slicing the sliding tail isolates exactly the last 32 bytes |
| VarintTheorems.UnframedRoundTrip | napqes.py:1406-1565 | the unframed stream decodes to its text |
| VarintSession.SessionV7Valid | napqes.py:283-470 | under any HMAC and usable key the derived schedule is valid and the masking undoes itself |
| VarintSession.MasksIndependent | napqes.py:435-450 | a byte is masked by the keystream byte of its offset, and one HMAC answer decides exactly 32 of them |
| VarintSession.KeyBytesInjective | napqes.py:283-287 | different keys are serialised to different HMAC keys |
| VarintSession.AeUnderEveryOracle | napqes.py:1620-1811 | the framed round trip for every HMAC function, key that validation accepts, noise test, associated data, nonce, frame size and slicing |
| VarintSession.UnframedUnderEveryOracle | napqes.py:1406-1565 | the unframed round trip likewise |
| Hybrid.HybridTranscript | rust/src/kem.rs:215-227 | the loop writes the version prefix and the four length-prefixed parts |
| Hybrid.TranscriptInjective | rust/src/kem.rs:215-227 | exchanges with the same transcript agree on all four public values |

## Left out

- Sha256.Sha256Ctx.Final: states the digest for every length with the length field modulo 2^64, as the code computes it; FIPS 180-4 defines it below 2^61 bytes only.
- Sha256Fips.Hmac256: one published digest is proved, of one block; no HMAC vector is.
- Varint.EncodeChar: positions are unbounded; the OverflowError that Python raises for a position beyond 40 bits is not modelled.
- VarintTheorems.EncryptStream: does not model the OverflowError of the 32-bit keystream counter beyond 2^37 bytes, which the framed stream does model.
- VarintStream.EncryptStreamAe: says exactly when the encoder raises, not which frames it has yielded by then; a chunk size of zero, on which the source loops forever, and associated data of 2^32 bytes or more, on which it raises, are excluded.
- Varint.TextRoundTrip: assumes that every noise run is finite, which the v7 format, unlike v8, does not enforce by a cap.
- Primes.ExpandSeedToPrimes: the source panics when the 32-bit counter overflows; the model returns an error there.
- Planner.Planner.PlanPath: requires the start to lie in the grid, which the C code does not check before it writes there; a goal outside the grid is allowed.
- OtGateway.AcceptedInOrder: takes verification as one step and the window update as another; sockets, threads and the loading of keys are not modelled, and an arrival carries whatever key its handler loaded.
- Authenticity.StreamAuthenticity: unforgeability is a hypothesis about the tags that can be checked on the given stream, not derived from a hardness assumption.
- VarintAuthenticity.FramedAuthenticity: the same; the runs are streams only, and the tags of the v7 block format, which uses the same HMAC key, are not among them.
- OtDelivery.HandleEgress: reading from the connection, the size limit of an envelope, the loading of keys and the rebuilding of Modbus frames before forwarding are not modelled; each envelope arrives with the cipher of its key.
- Byte buffers are sequences where the source copies or appends; arrays and in-place updates are kept for the planner, the elimination, the register synthesis, the hash context, the message schedule and the CRC table.
- Nonces are arguments: drawing them, and the health check on repeated draws, are not modelled.
- The v7 block format, base64 wrappers and `NapqesKey` wrappers repeat what is proved for v8.
- Constant-time comparison, zeroization and allocation failure have no functional content here.
- FrodoKEM, X25519, HKDF and the FIPS self-test gate are not part of this model.
- The other statistical tests, the drone's filters and sensors, Modbus framing, networking, logging and command lines would add easy or floating-point members.
