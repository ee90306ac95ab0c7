# A verified model of Keyser

Keyser is a peer-to-peer cryptocurrency node with ring-signed transactions, written in C++. This
project models three parts of it in Dafny and proves what they promise.

**Ring signatures.** `Ring::sign`, `Ring::verify` and `Ring::calc_e`, with the hash to the curve,
the hexadecimal codecs and the scalar multiplication they stand on. The loops over the vectors of
challenges, responses and keys are methods on arrays; `Ring.Walk`, the chain of challenges around
the ring, is the function they are proved against. About that chain it is proved that signatures
verify, that every accepted signature could have been made by any owner of the key image and in
exactly one way, that rings can be rotated, and what an accepted signature binds and reveals.

**The message pipeline.** `Peer`, `tsqueue` and `NetInterface::update`. `Peers.Peer` and
`TsQueues.TsQueue` are classes whose methods change their fields as the handlers do, and equal the
functions on `PeerState`. `Links` is the state machine made of these functions: one direction of a
connection, with posted sends, outstanding reads and writes, chunks of any size, failures,
disconnections and lost bytes at any time. `Nodes` puts any number of connections and the response
thread around the shared queue. The theorems hold over every run.

**The command tokenizer** `utils::parse_cmd`, as an automaton, against a grammar that covers every
line, and as the inverse of a printer.

| files | what is in them |
|---|---|
| Options, Characters, Arith | optional values; white space; congruences, Bezout, inverses, square roots modulo a prime |
| Hex, Octets, BigNum | byte strings and numbers in hexadecimal |
| Curve, PointEncoding, HashToCurve | the group, the encoding of points (sections 2.3.3 and 2.3.4 of SEC 1 version 2), the hash to the curve |
| Ring | `sign`, `verify`, `calc_e` |
| RingProperties, RingInvariance, RingExtraction, RingBinding, RingSpelling | theorems about them |
| ToyCurve | a curve that meets all assumptions, and a counterexample on it |
| Framing, TsQueue, Peer, Link, LinkProperties, Node, NodeProperties, NetInterface | the message pipeline |
| Tokenizer | the tokenizer |

## What is assumed

A `Curves.Curve` holds what comes from libraries: point addition, the modular square root and
SHA3. `Curve.Valid` is all that is used of them: y^2 = x^3 + 7 over an odd prime field of at most
2^256 elements, the group laws, odd prime order, roots found whenever there are any, and hashes of
64 hexadecimal digits. SHA3 is otherwise an arbitrary function; nothing rests on its quality.
`ToyCurve.ToyIsValid` shows that these assumptions can be met together.

Callers of `sign` and `verify` pass strings that spell points other than the identity, as pairs of
digits: on anything else the source dereferences a null point or makes the identity a generator.
`sign` needs a ring of at least one member, since it reduces modulo its size. The size field of
the header of a message that is sent equals the size of its body.

Where the code and its comments differ, the model follows the code.

- The round of `ssvg_hash_to_curve` for a one bit says P += Q, but Q was copied before the lift and
  is the identity, so the round does nothing. The result is the start point times two to the number
  of zero bits of the hash.
- `Hs` does not reduce: challenges are compared as whole numbers, responses count modulo the order.
- `sign` hashes the bytes of the string `realOutput`, `verify` those of the compressed form of the
  point. So completeness needs the signer's key in compressed spelling:
  `RingSpelling.SignedVerifiesIffCompressed` says exactly when, and `RingSpelling.UncompressedVerifiesIff`
  gives, for every curve and secret, a ring whose signatures are rejected unless `alpha` is zero or
  the hash function coincides on a named pair. `ToyCurve.UncompressedSignerRejected` is an input
  on which none of this happens and `verify` rejects what `sign` returned.
- A message without a body that follows one with a body is queued with the old body still in it,
  because the temporary message is reused. `LinkProperties.StaleBodyDelivered` leads there from the
  start for any two such messages, `LinkProperties.DeliveredExactlyIff` is the exact condition,
  `LinkProperties.DeliveredMessage` what holds always.
- `parse_cmd` drops empty words even when they are quoted: `Tokenizer.ParseInvertsRenderIff`.

## Model

| member | source | states |
|---|---|---|
| RingProperties.SignedVerifies | libs/keycrypto/keycrypto/Ring.cpp:61-88 | completeness: for every ring, signer position, message and randomness `verify` accepts what `sign` returns, if the signer's key is spelled in compressed form |
| RingProperties.SignedVerifiesIff | libs/keycrypto/keycrypto/Ring.cpp:57-81 | for any spelling of the signer's key the verdict on the signature is whether the random responses between the signer's slot and slot 0 lead from the hash point of the compressed form to the same challenge as from that of the spelling |
| RingSpelling.SignedVerifiesIffCompressed | libs/keycrypto/keycrypto/Ring.cpp:57-62 | for every ring and randomness and a message hash of even length, the verdict is true if and only if the signer's key is spelled by at most 66 digits, or the spelling hashes to the point of the compressed form, or `alpha` is zero, or the hash function coincides on the two first transcripts or on the two transcripts of one slot between the signer's and slot 0 |
| RingSpelling.SameWalkIff | libs/keycrypto/keycrypto/Ring.cpp:61-78 | two hash points lead to the same challenge of slot 0 if and only if they are equal, `alpha` is zero, or such a coincidence happens |
| RingSpelling.WalksAgreeIff | libs/keycrypto/keycrypto/Ring.cpp:67-78 | two walks around the ring with the same responses end alike if and only if they start alike or show, at one and the same link, different transcripts with the same challenge; the last link counts exactly, the others modulo the order |
| RingSpelling.TranscriptTellsChallenge | libs/keycrypto/keycrypto/Ring.cpp:191-216 | two challenges of one slot lead to the same hashed bytes if and only if they are congruent modulo the order |
| RingSpelling.FirstTranscriptTells | libs/keycrypto/keycrypto/Ring.cpp:52-62 | the first transcripts made with two hash points are the same if and only if the points are equal or `alpha` is zero |
| RingSpelling.UncompressedIsSigner | libs/keycrypto/keycrypto/Ring.cpp:14-16 | on every curve every secret that is not a multiple of the order owns a ring of one whose member is spelled uncompressed |
| RingSpelling.UncompressedVerifiesIff | libs/keycrypto/keycrypto/Ring.cpp:52-62 | in that ring the verdict is true if and only if both forms of the key hash to one point, `alpha` is zero, or the two first transcripts differ but have the same hash |
| ToyCurve.UncompressedSignerRejected | libs/keycrypto/keycrypto/Ring.cpp:57-62 | an instance of the last row with a message hash of 64 digits, on the curve with 7 points and a simple hash function, on which `verify` rejects what `sign` returned |
| RingProperties.SignatureClosesIff | libs/keycrypto/keycrypto/Ring.cpp:80-81 | setting the signer's response closes the ring of challenges, up to the hash point it was started with |
| RingProperties.SignatureCloses | libs/keycrypto/keycrypto/Ring.cpp:61-81 | with the hash point that `verify` uses the ring closes from slot 0 |
| RingProperties.OwnerLink | libs/keycrypto/keycrypto/Ring.cpp:191-216 | for the owner of a slot the next challenge depends on s + e*x modulo the order only |
| RingProperties.VerifiedIsSigned | libs/keycrypto/keycrypto/Ring.cpp:45-88 | every accepted signature with reduced, canonically printed numbers is what `sign` returns, for the owner of any slot, with alpha = s + e*x modulo the order at that slot and the responses as the random ones |
| RingProperties.ClosedIsSignature | libs/keycrypto/keycrypto/Ring.cpp:142-165 | the same on numbers, the challenge e being the one the walk from slot 0 brings to the slot |
| RingProperties.SignedExactlyVerified | libs/keycrypto/keycrypto/Ring.cpp:142-165 | the signatures a signer can make are exactly the accepted canonical ones |
| RingProperties.SignersIndistinguishable | libs/keycrypto/keycrypto/Ring.cpp:4-107 | any two owners of the same key image in a ring can make the same signatures |
| RingProperties.SignedOnce | libs/keycrypto/keycrypto/Ring.cpp:45-88 | a signature determines `alpha` and all the random responses that went into it |
| RingProperties.SignatureInjective | libs/keycrypto/keycrypto/Ring.cpp:80-88 | the same on numbers |
| RingProperties.WalkCompose | libs/keycrypto/keycrypto/Ring.cpp:142-148 | recomputing k + l challenges is recomputing k and going on from there for l |
| RingProperties.ClosesFrom | libs/keycrypto/keycrypto/Ring.cpp:142-165 | a ring that closes from one slot closes from every slot |
| RingInvariance.RotationVerifies | libs/keycrypto/keycrypto/Ring.cpp:142-165 | if a signature verifies, so does the rotation of ring and responses that starts from the k-th recomputed challenge, for every k |
| RingInvariance.WalkRotated | libs/keycrypto/keycrypto/Ring.cpp:142-148 | walking the rotated ring is walking the ring from a later slot |
| RingInvariance.RespellingKeepsVerdict | libs/keycrypto/keycrypto/Ring.cpp:128-165 | respelling entries of the signature (case, leading zeros) leaves the verdict unchanged |
| RingInvariance.SameSpellingIff | libs/keycrypto/keycrypto/Ring.cpp:139-140 | two digit strings differ in case and leading zeros only exactly when they are read as the same number |
| RingInvariance.ResponsesCountModuloOrder | libs/keycrypto/keycrypto/Ring.cpp:128-148 | replacing responses by congruent ones modulo the order leaves the verdict unchanged |
| RingExtraction.Extract | libs/keycrypto/keycrypto/Ring.cpp:179-202 | two answers with incongruent challenges to the same R and R2 give the one x with P = xG and I = x*Hp(P), the quotient of the differences |
| RingExtraction.ForkRevealsSecret | libs/keycrypto/keycrypto/Ring.cpp:142-148 | two walks that hash the same bytes at a slot they reached with incongruent challenges reveal the secret of that slot |
| RingExtraction.TranscriptInjective | libs/keycrypto/keycrypto/Ring.cpp:204-216 | the hashed bytes determine the message hash up to case, R and R2, the identity included |
| RingExtraction.TranscriptTellsPoints | libs/keycrypto/keycrypto/Ring.cpp:204-216 | for one message hash of even length, digits or not, the hashed bytes determine R and R2 |
| RingExtraction.OneImagePerKey | libs/keycrypto/keycrypto/Ring.cpp:196-202 | whoever owns the same key in two rings shows the same key image |
| RingBinding.MessageBound | libs/keycrypto/keycrypto/Ring.cpp:142-165 | signatures of two messages accepted with the same first challenge exhibit two byte strings of equal hash |
| RingBinding.ResponsesBound | libs/keycrypto/keycrypto/Ring.cpp:142-165 | two accepted signatures with the same first challenge and a different reduced response exhibit a collision or the secret of a member |
| Ring.Sign | libs/keycrypto/keycrypto/Ring.cpp:4-107 | returns the numbers of the signature at the first occurrence of `realOutput`, printed, one more than there are members; out of range exactly when it is not in the ring |
| Ring.SignedShape | libs/keycrypto/keycrypto/Ring.cpp:14-88 | the same failure and length for the function that `sign` is proved against |
| Ring.SignFrom | libs/keycrypto/keycrypto/Ring.cpp:62-88 | from the first challenge on, the arrays hold the chain of the signature |
| Ring.StartChallenge | libs/keycrypto/keycrypto/Ring.cpp:52-62 | the challenge made from `alpha` and the hash of the bytes of `realOutput` |
| Ring.FillChallenges | libs/keycrypto/keycrypto/Ring.cpp:64-78 | after the wrap-around loop every slot holds the challenge of its distance from the slot after the signer's |
| Ring.SlotsDiffer | libs/keycrypto/keycrypto/Ring.cpp:69-77 | within one turn no slot is written twice |
| Ring.WalkSkipsStart | libs/keycrypto/keycrypto/Ring.cpp:67-78 | the loop of `sign` never reads the response of the signer's slot |
| Ring.SignatureFilled | libs/keycrypto/keycrypto/Ring.cpp:80-88 | the signer's slot and slot 0 of the filled array hold the challenges the signature is made of |
| Ring.CloseRing | libs/keycrypto/keycrypto/Ring.cpp:80-81 | changes the signer's response alone, to alpha - e*x modulo the order |
| Ring.FinishSignature | libs/keycrypto/keycrypto/Ring.cpp:80-88 | closes the ring and prints challenge 0 and all responses |
| Ring.Verify | libs/keycrypto/keycrypto/Ring.cpp:109-166 | false on every signature that does not have one entry more than there are members; out of range exactly on one entry and no members; otherwise whether the ring of challenges closes |
| Ring.Recompute | libs/keycrypto/keycrypto/Ring.cpp:142-148 | slot 0 ends with the challenge that one whole turn leads to |
| Ring.CalcE | libs/keycrypto/keycrypto/Ring.cpp:179-217 | the challenge of s*G + e*P and s*Hp(P) + e*I |
| HashToCurve.SsvgHashToCurve | libs/keycrypto/keycrypto/cryptoUtils.cpp:68-114 | the result is two to the number of zero bits of the hash times the point with even ordinate at the first abscissa, from the number the hash spells on, that any point of the curve has; never the identity |
| HashToCurve.HashToPointIs | libs/keycrypto/keycrypto/cryptoUtils.cpp:70-106 | the same for the function that the code is proved against |
| HashToCurve.StartUnique | libs/keycrypto/keycrypto/cryptoUtils.cpp:78-86 | there is only one such point |
| HashToCurve.FirstLiftIsStart | libs/keycrypto/keycrypto/cryptoUtils.cpp:78-86 | the search finds it from every start |
| HashToCurve.BitsOfByte | libs/keycrypto/keycrypto/cryptoUtils.cpp:94-94 | the eight bits read from a byte, the first the most significant, add up to the byte |
| HashToCurve.ZeroBitsCount | libs/keycrypto/keycrypto/cryptoUtils.cpp:92-100 | the exponent is the number of positions of the hash that hold a zero bit |
| HashToCurve.Rounds | libs/keycrypto/keycrypto/cryptoUtils.cpp:91-106 | the closed form of the 256 rounds; the break is never taken |
| HashToCurve.RoundStep | libs/keycrypto/keycrypto/cryptoUtils.cpp:94-101 | a zero bit doubles the multiple, a one bit keeps it, and neither leads to the identity |
| HashToCurve.SearchPoint | libs/keycrypto/keycrypto/cryptoUtils.cpp:78-86 | the loop ends at the least abscissa from the hash on that lifts |
| HashToCurve.SearchProgress | libs/keycrypto/keycrypto/cryptoUtils.cpp:82-83 | with every failure the search comes one closer to the generator's abscissa |
| HashToCurve.FirstLift | libs/keycrypto/keycrypto/cryptoUtils.cpp:78-86 | a liftable abscissa exists, none before it lifts, and it is at most the generator's away |
| HashToCurve.HashToPointOn | libs/keycrypto/keycrypto/cryptoUtils.cpp:102-113 | the hash of a point is on the curve and not the identity |
| Curves.MulAdd | libs/keycrypto/keycrypto/cryptoUtils.cpp:116-136 | scalar multiplication turns sums of integers into sums of points, negative ones included |
| Curves.MulMul | libs/keycrypto/keycrypto/cryptoUtils.cpp:116-136 | multiplying twice is multiplying by the product |
| Curves.MulCong | libs/keycrypto/keycrypto/cryptoUtils.cpp:127-130 | scalars count modulo the order |
| Curves.MulZeroIff | libs/keycrypto/keycrypto/cryptoUtils.cpp:127-130 | only multiples of the order lead a point other than the identity to the identity |
| Curves.MulInjective | libs/keycrypto/keycrypto/cryptoUtils.cpp:127-130 | equal multiples have congruent scalars |
| PointEncoding.LiftFinds | libs/keycrypto/keycrypto/cryptoUtils.cpp:80-80 | lifting the abscissa of a point with the parity of its ordinate gives the point back |
| PointEncoding.DecodeEncoded | libs/keycrypto/keycrypto/Ring.cpp:136-136 | decoding undoes compressed encoding, for every point of the curve |
| PointEncoding.EncodeDecoded | libs/keycrypto/keycrypto/Ring.cpp:196-196 | what is decoded is on the curve, and encoding gives the bytes back exactly when there are at most 33 of them |
| PointEncoding.DecodeLongForms | libs/keycrypto/keycrypto/Ring.cpp:136-136 | uncompressed and hybrid forms are read as the same points |
| PointEncoding.DecodeExactly | libs/keycrypto/keycrypto/Ring.cpp:136-136 | the bytes that spell a point are its compressed, uncompressed and hybrid form, and no others |
| PointEncoding.HexPointExactly | libs/keycrypto/keycrypto/Ring.cpp:34-34 | the strings that spell a point are the digits of these forms, in either case, and no others |
| PointEncoding.EncodePrefixFree | libs/keycrypto/keycrypto/Ring.cpp:204-216 | no encoding of a point, the identity included, is the beginning of another |
| PointEncoding.HexPointOfPointHex | libs/keycrypto/keycrypto/Ring.cpp:54-54 | a printed point is read back |
| PointEncoding.HexPointBytes | libs/keycrypto/keycrypto/Ring.cpp:57-57 | the bytes of a string that spells a point are its compressed encoding exactly when the string has at most 66 characters |
| Hex.ParseString | libs/keycrypto/keycrypto/cryptoUtils.cpp:11-21 | aborts exactly when a pair holds another character than a digit; otherwise fills the front of the buffer with the bytes spelled and leaves its tail |
| Hex.UChar2Str | libs/keycrypto/keycrypto/cryptoUtils.cpp:40-49 | the lower-case encoding of the first `len` bytes |
| Hex.HexToString | libs/keycrypto/keycrypto/cryptoUtils.cpp:23-38 | one byte for every pair of any characters, an odd last one dropped |
| Hex.DecodeEncodeLower | libs/keycrypto/keycrypto/cryptoUtils.cpp:11-49 | `parse_string` undoes `uChar2Str` on every byte string |
| Hex.DecodeEncodeUpper | libs/keycrypto/keycrypto/Ring.cpp:204-216 | the same for the upper-case digits of printed points |
| Hex.EncodeDecode | libs/keycrypto/keycrypto/cryptoUtils.cpp:11-49 | `uChar2Str` of `parse_string` puts every even-length digit string into lower case |
| Hex.EncodeUpperIs | libs/keycrypto/keycrypto/Ring.cpp:54-54 | printed points differ from `uChar2Str` in the case of letters only, and are in upper case |
| Hex.DecodeIgnoresCaseOnly | libs/keycrypto/keycrypto/cryptoUtils.cpp:3-21 | two even-length digit strings mean the same bytes exactly when they differ in case only |
| Hex.DecodeAt | libs/keycrypto/keycrypto/cryptoUtils.cpp:19-20 | byte k comes from digits 2k and 2k + 1 |
| Hex.StringBytesIsDecode | libs/keycrypto/keycrypto/cryptoUtils.cpp:23-38 | `hexToString` agrees with `parse_string` on digits |
| Hex.StringBytesConcat | libs/keycrypto/keycrypto/cryptoUtils.cpp:23-38 | `hexToString` distributes over concatenation after an even number of characters |
| BigNum.ReadPrinted | libs/keycrypto/keycrypto/Ring.cpp:139-165 | `BN_hex2bn` reads back what `BN_bn2hex` prints, for every integer, so comparing prints compares numbers |
| BigNum.Hex2BnReads | libs/keycrypto/keycrypto/cryptoUtils.cpp:61-66 | an optional minus sign and the digits up to the first other character are read, whatever follows |
| BigNum.PrintIs | libs/keycrypto/keycrypto/Ring.cpp:84-88 | a number is printed as its sign and the upper-case digits of its octets, the fewest that hold it |
| BigNum.PairByteIsExtracted | libs/keycrypto/keycrypto/cryptoUtils.cpp:31-35 | what `hexToString` makes of a pair of any characters is the number extracted from a stream of them (blanks, one sign, digits), cut to a byte |
| BigNum.SameNumberIff | libs/keycrypto/keycrypto/cryptoUtils.cpp:61-66 | digit strings are read as the same number exactly when they agree up to leading zeros and case |
| ToyCurve.ToyIsValid | libs/keycrypto/keycrypto/cryptoUtils.cpp:68-136 | the assumptions made of curve and hash can be met together, whatever the hash function |
| LinkProperties.DeliveredIsReceivedPrefix | src/net/Peer.cpp:63-182 | over every run, what is queued as received is what the receiver makes of the first messages sent, in order; no handler touches an empty queue |
| LinkProperties.DeliveredMessage | src/net/Peer.cpp:63-182 | every message received has the header of the one sent and begins with its body, as long as the header says |
| LinkProperties.DeliveredExactlyIff | src/net/Peer.cpp:80-122 | messages are received exactly as sent if and only if none without a body follows one with a body |
| LinkProperties.StaleBodyDelivered | src/net/Peer.cpp:87-95 | for any two messages, the first with a body and the second without, there is a run from the start that delivers the second with the body of the first |
| LinkProperties.OneWriteOfTheHead | src/net/Peer.cpp:63-175 | at most one write is outstanding, it writes the head, and while no write has failed there is one exactly when messages are queued |
| LinkProperties.FailedWriteIsFinal | src/net/Peer.cpp:124-175 | after a failed write its message stays at the head and no later send puts a byte on the wire |
| LinkProperties.OpenIsHealthy | src/net/Peer.cpp:55-175 | while both sockets are open no write has failed, and one read is outstanding as soon as `listen` was called |
| LinkProperties.QuietStep | src/net/Peer.cpp:55-182 | without new sends and failures every step, the call of `listen` included, decreases the measure of bytes and handlers to go |
| LinkProperties.QuietRunBounded | src/net/Peer.cpp:80-182 | a run of such steps is no longer than the measure |
| LinkProperties.QuiescentHasDelivered | src/net/Peer.cpp:80-182 | when no such step is possible everything sent has been delivered and the queue is empty |
| LinkProperties.QuietRunDrains | src/net/Peer.cpp:80-182 | every maximal run of such steps from an open connection delivers everything |
| LinkProperties.CanDrain | src/net/Peer.cpp:80-182 | and there is one |
| Links.StepKeepsInv | src/net/Peer.cpp:55-210 | every handler, chunk, failure, disconnection and loss keeps the invariant of sender and receiver |
| Links.RunKeepsInv | src/net/Peer.cpp:55-210 | so does every run |
| Links.PutFromSent | src/net/Peer.cpp:124-175 | what was put on the wire is the beginning of the frames of what was sent |
| Links.HeaderArrived | src/net/Peer.cpp:80-88 | a completed header read holds the header of the next message sent |
| Links.BodyArrived | src/net/Peer.cpp:106-114 | a completed body read holds its body |
| Framing.DecodeEncodedHeader | src/net/NetMessage.hpp:12-17 | a header is read back from its memory image |
| Framing.EncodeDecodedHeader | src/net/NetMessage.hpp:12-17 | every 32 bytes are the image of the header read from them |
| Framing.HeaderLayout | src/net/NetMessage.hpp:12-17 | magic, command and size lie one after the other in the image, the size padded to its alignment and little-endian |
| Framing.NextFrame | src/net/Peer.cpp:124-175 | bytes seen after whole frames come from the next frame |
| Framing.ReceivedAt | src/net/Peer.cpp:87-95 | the k-th message received has the k-th header and the last body so far that was not empty |
| Framing.ReceivedPrefix | src/net/Peer.cpp:87-95 | its first `size` bytes are the body that was sent |
| Framing.ReceivedExactlyIff | src/net/Peer.cpp:87-95 | all bodies are right if and only if none that is empty follows one that is not |
| Peers.Peer.constructor | src/net/Peer.cpp:5-19 | a connected peer with an empty outgoing queue of its own and the shared incoming one |
| Peers.Peer.HandleSend | src/net/Peer.cpp:63-78 | the message is queued, and writing begins exactly when the queue was empty |
| Peers.Peer.WriteHeaderOp | src/net/Peer.cpp:124-127 | a write of the head's header is outstanding |
| Peers.Peer.WriteBodyOp | src/net/Peer.cpp:154-157 | a write of the head's body is outstanding |
| Peers.Peer.HandleHeaderWritten | src/net/Peer.cpp:127-151 | the body is next, or the head leaves and the next message is begun; a failure closes the socket |
| Peers.Peer.HandleBodyWritten | src/net/Peer.cpp:157-173 | the head leaves and the next message is begun; a failure closes the socket |
| Peers.Peer.ReadHeaderOp | src/net/Peer.cpp:80-83 | a header read is outstanding |
| Peers.Peer.ReadBodyOp | src/net/Peer.cpp:106-109 | a body read of the announced size is outstanding |
| Peers.Peer.HandleHeaderRead | src/net/Peer.cpp:83-102 | the body is resized and read, or the message is queued with the body left from before; a failure closes the socket |
| Peers.Peer.HandleBodyRead | src/net/Peer.cpp:109-120 | the message is queued; a failure closes the socket |
| Peers.Peer.AddToIncomingMessageQueue | src/net/Peer.cpp:177-182 | the shared queue grows by the temporary message, and the next header is read |
| Peers.Peer.StartListening | src/net/Peer.cpp:55-61 | one header read more is outstanding if the socket is open, and none if it is closed |
| Links.ListenKeepsInv | src/net/Peer.cpp:55-61 | from a peer just constructed, listening leads to the state in which frames are received |
| Peers.Peer.Close | src/net/Peer.cpp:204-210 | the socket is closed |
| TsQueues.TsQueue.constructor | src/utils/tsqueue.hpp:15-15 | empty |
| TsQueues.TsQueue.Front | src/utils/tsqueue.hpp:23-27 | the oldest element, of a queue that has one |
| TsQueues.TsQueue.PopFront | src/utils/tsqueue.hpp:35-41 | takes the oldest element off |
| TsQueues.TsQueue.PushBack | src/utils/tsqueue.hpp:51-55 | appends |
| TsQueues.TsQueue.Empty | src/utils/tsqueue.hpp:69-73 | whether there is no element |
| Nodes.StepKeepsInv | src/net/NetInterface.cpp:222-245 | connections and the response thread, interleaved at queue operations, keep the account of every message |
| Nodes.PopIsSafe | src/net/NetInterface.cpp:231-243 | in every reachable state the message seen by the emptiness test is still there at the pop, and a round makes at most `maxMessages` pops without wrapping the 8-bit counter |
| Nodes.DispatchedOnceInOrder | src/net/NetInterface.cpp:233-240 | what a peer delivered is what was dispatched of it followed by what is waiting of it: nothing twice, lost or reordered |
| Nodes.DispatchedIsSentPrefix | src/net/NetInterface.cpp:233-240 | from the remote `send` to the local `onMessage`: what is dispatched of a peer is what the receiver makes of the first messages it sent |
| Nodes.ShutdownIsFinal | src/net/NetInterface.cpp:228-229 | once the shutdown is seen nothing more is dispatched, whatever still arrives |
| NodeProperties.OpenIsHealthy | src/net/NetInterface.cpp:222-245 | a reachable running node whose sockets are all open is in the state the next rows start from |
| NodeProperties.QuietStep | src/net/NetInterface.cpp:222-245 | without new sends, failures and connections every step of connections and response thread makes the work left less, except that the thread may look at an empty queue |
| NodeProperties.BusyBounded | src/net/NetInterface.cpp:222-245 | no run has more of such steps than the work it starts with |
| NodeProperties.OnlyIdleHasDispatched | src/net/NetInterface.cpp:231-243 | when nothing but looking at the empty queue is left, all that every peer sent has been dispatched, in order |
| NodeProperties.QuietRunDispatches | src/net/NetInterface.cpp:222-245 | every run that goes on that far ends with everything dispatched |
| NodeProperties.CanDispatch | src/net/NetInterface.cpp:222-245 | and there is one |
| NodeProperties.ThreadEmptiesQueue | src/net/NetInterface.cpp:231-243 | with no more arrivals the thread empties the queue within four steps a message and three more, for every `maxMessages` above zero |
| NetInterfaces.Round | src/net/NetInterface.cpp:231-243 | while other threads push, one round makes at least one queue operation, dispatches at most `maxMessages` in order, and stops early only when it saw the queue empty |
| NetInterfaces.Update | src/net/NetInterface.cpp:222-245 | what was dispatched followed by what is left is what was queued and what arrived; every one of the rounds before the shutdown dispatches `maxMessages` or catches up with all that came in until its end |
| NetInterfaces.WholeRoundsDispatch | src/net/NetInterface.cpp:222-245 | so all that was queued in the beginning is dispatched, unless every round was full |
| NetInterfaces.Turn | src/net/NetInterface.cpp:233-236 | other threads only append, between any two queue operations |
| NetInterfaces.Interfere | src/net/Peer.cpp:177-179 | pushes of other threads go to the back, in order |
| Tokenizer.ParseCmd | src/utils/utils.cpp:35-74 | the loop computes the words that the automaton finds |
| Tokenizer.ParseLine | src/utils/utils.cpp:35-74 | a line made of blanks, plain characters and quoted parts, the last of which may be open, has the words that its pieces mean: pieces that touch make up one word, blanks end it, a backslash between quotes stands for the next character, outside for itself |
| Tokenizer.EveryLine | src/utils/utils.cpp:35-74 | every line is made of such pieces, so the words of every line are determined |
| Tokenizer.RunPlain | src/utils/utils.cpp:54-65 | characters that are neither blanks nor quotes are appended to the word as they stand |
| Tokenizer.ParsePlain | src/utils/utils.cpp:54-65 | a line without blanks and quotes is one word |
| Tokenizer.ParseBetweenQuotes | src/utils/utils.cpp:45-53 | between double or single quotes every other character stands for itself |
| Tokenizer.ParseSplitsAt | src/utils/utils.cpp:55-59 | each of the six blanks outside quotes cuts a line in two |
| Tokenizer.NoEmptyWord | src/utils/utils.cpp:55-71 | no input gives an empty word |
| Tokenizer.RunConcat | src/utils/utils.cpp:42-67 | outside quotes the automaton can be stopped and restarted |
| Tokenizer.ParseSplits | src/utils/utils.cpp:42-73 | whitespace outside quotes cuts a line into two that are parsed independently |
| Tokenizer.ParseRender | src/utils/utils.cpp:45-66 | words printed in either quote, escaped, with any whitespace between, parse back to those that are not empty |
| Tokenizer.ParseInvertsRenderIff | src/utils/utils.cpp:35-74 | they parse back to the same list if and only if none is empty |
| Tokenizer.NormalForm | src/utils/utils.cpp:35-74 | every line parses like its own words, quoted |

## Left out

- Ring.Sign: an empty ring is excluded, because the source takes a remainder modulo the size of the ring; the two values drawn by `BN_rand_range` are arguments below the order.
- Ring.Verify: strings that do not spell a point as pairs of digits, or spell the identity, are excluded; the source hands the null result of `EC_POINT_hex2point`, or the identity as a generator, on to OpenSSL.
- RingProperties.SignedVerifies: needs the signer's key in compressed spelling, because the code does; the exact condition is `RingSpelling.SignedVerifiesIffCompressed`.
- RingSpelling.SignedVerifiesIffCompressed: a message hash of an odd number of characters is not covered; `hexToString` then pairs its last character with the first digit of a point and drops the last digit of all. SHA3 prints 64.
- RingBinding.MessageBound: a collision is exhibited, not excluded; that collisions and discrete logarithms are hard to find is not stated anywhere.
- Hex.HexToString: on characters other than digits it follows the usual stream extraction (blanks, one sign, digits); the `0x` prefix does not fit two characters with a digit.
- Hex.UChar2Str: a negative `len` is not modelled.
- Tokenizer.ParseCmd: `std::isspace` of a negative `char`, that is of a byte outside ASCII where `char` is signed, is undefined in C++; here such characters are not white space.
- Links.StepKeepsInv: `listen` is a step that happens at most once, and `Peer::connect`, which reads on its own, is not modelled; one direction of a connection at a time; the other direction can only interfere by closing the sockets, which is a step. Handlers run one after the other in the order of a single asio thread, and posted handlers in the order of posting.
- Framing.DecodeEncodedHeader: the layout is that of a little-endian 64-bit machine, the same at both ends, padding included.
- Nodes.StepKeepsInv: what `onMessage` does with a message, the 50 ms pause and the end of the program are not modelled; connections are never removed, closed ones stay without effect.
- NetInterfaces.Update: the shutdown flag is a number of rounds; the parameter `wait` is not used by the source.
- OpenSSL and SHA3 themselves, allocation, frees and leaks; `sha.hpp` is not part of this model.
- `sc_reduce32`, `rand`, `randomBytes`, `printSig` and the print helpers: they decide nothing here.
- The other operations of `tsqueue` (back, popBack, pushFront, at, clear, count): not used by the pipeline.
- `Peer::connect`, the acceptor, the container of peers, handshakes and the lifetime of shared pointers.
- Stealth addresses, AES, key pairs, chain, mining, storage, settings and the console: commented out, unfinished, or wrappers and I/O.
