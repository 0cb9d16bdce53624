# A verified model of the ZKP authentication service

A service lets clients prove that they know the secret key behind an enrolled public key. A client
sends a non-interactive Schnorr proof bound to a timestamp and a nonce, over framed TCP or a Kafka
topic; the service looks the key up, matches it, checks freshness and replay, and verifies. This
project models that service and proves what it relies on, from the arithmetic of the proof to the
behaviour of all its tasks at once.

| file | models |
|---|---|
| `Bytes.dfy`, `NumberTheory.dfy`, `Groups.dfy` | machine integers and their encodings, arithmetic modulo a prime, an abelian group of prime order with scalar multiplication |
| `Schnorr.dfy` | the proof engine: proof generation, verification, the challenge |
| `Protocol.dfy`, `Wire.dfy` | the messages and their bincode layout |
| `Framing.dfy` | the length-delimited codec on a growing buffer, and the framed stream over it |
| `Replay.dfy` | the replay cache, and histories of its critical sections |
| `Messages.dfy`, `Gate.dfy` | the authentication decision on each transport, and the texts of replies |
| `Connection.dfy` | the connection loop of the TCP server |
| `Interleaving.dfy` | all tasks of a service sharing registry and cache: runs of atomic steps, and what every conclusion of a run goes back to |
| `Sessions.dfy` | every task of a run as a connection |
| `Inversion.dfy` | runs in which readings out of lock order let one proof in twice |
| `Kafka.dfy` | the consuming worker and the client's scan for its response |

How things are represented:

- Points are an arbitrary type. The group laws, the 33-byte point encoding and the 32-byte digest are
  hypotheses on a `Curve` value (`Valid`), met by at least one value (`Schnorr.ValidCurveExists`).
  Encoded points read back except the identity, whose padded 33 bytes do not. The hash is any function.
- 64-bit arithmetic wraps, as in a release build. `SaneClock` says that the clock is not negative, the
  tolerance is not negative, and their sum stays in range.
- A clock reading is an argument of a call. It is made before the lock is taken, so a history is the
  sequence of critical sections in lock order with readings in any order.
- What other connections do to the registry and the cache between two requests is an arbitrary schedule
  (`Moment`, `RecordMoment`), so results on one connection hold under any interference. A moment holds one
  registry, one reading and one cache although the code reads them at three times: in `Interleaving` the
  four steps of every request interleave with all the others, and each conclusion is still the gate's
  decision at one such moment (`Interleaving.EveryConclusionIsTheGates`). For every task of every run there
  is a schedule of such moments under which the connection loop sends the replies of its conclusions
  (`Sessions.TaskIsAConnection`).
- A task that panics (a response of other than 32 bytes reaching the slice conversion, a digest that is
  not a scalar) is an outcome of its own, not a precondition.

Two statements one might expect are false of the code, and the exact condition is proved instead:

- A proof can be accepted twice when a call enters its critical section with a clock reading older than
  that of a section before it: in the cache (`Replay.DoubleAcceptance`) and in the whole service, for every
  accepted proof (`Inversion.DoubleGrant`). A user and nonce accepted before are accepted again exactly when
  their last acceptance, under whatever timestamp, has left the window of the call, or some section since
  read a clock past the expiry of that acceptance (`Replay.RepeatAcceptedExactly`); no proof is accepted
  twice with readings in lock order (`Replay.NoDoubleAcceptance`), nor with readings at most a skew ahead up
  to an age of the tolerance minus the skew (`Replay.BoundedInversionSafe`), a limit that cannot be raised
  (`Replay.BoundIsTight`).
- A frame limit of 2^32 or more does not guarantee that an encoded message reads back: a request with a
  public key of 2^32 - 56 bytes does not (`Connection.OverlongRequestFails`). A message reads back exactly
  when its print is shorter than 2^32 bytes (`Framing.RoundTripExact`, for requests
  `Connection.RequestReadsBackExactly`).

The two freshness tests of the code also differ, on exactly one timestamp
(`Replay.FreshnessTestsAgree`).

## Model

| member | source | states |
|---|---|---|
| Replay.WindowExact | src/replay.rs:41-57 | for every 64-bit timestamp, overflow included, the window test passes exactly when the age is within the tolerance, and which error it gives otherwise |
| Replay.FreshnessTestsAgree | src/zkp_core_engine.rs:155-158 | the engine's freshness test and the cache's agree except on the timestamp exactly 2^63 seconds back |
| Replay.FreshnessTestsDisagree | src/zkp_core_engine.rs:155-158 | a concrete stale timestamp that one test passes and the other refuses |
| Replay.ReplayProtector.CheckAndRecord | src/replay.rs:40-72 | the cache and the answer are those of a whole call: window test, prune, lookup, insert |
| Replay.SectionExact | src/replay.rs:59-71 | a critical section accepts exactly the keys without a live entry; its entries are the live ones and the accepted one; every result on histories rests on it |
| Replay.CheckExact | src/replay.rs:40-72 | when a call succeeds, when it is refused as a replay, and which entries it leaves; the conditions of the gate rest on it |
| Replay.CacheExact | src/replay.rs:59-71 | after any history, whatever the clocks read, the cache is exactly the accepted calls not expired for a later section |
| Replay.AnswerExact | src/replay.rs:59-71 | the answer to the next call, whatever the clocks read, in terms of the accepted calls that survive |
| Replay.OneSurvivorPerKey | src/replay.rs:65-70 | at most one accepted call per user and nonce is remembered |
| Replay.RepeatAcceptedExactly | src/replay.rs:40-72 | a user and nonce accepted before, shown again with any timestamp, are accepted again if and only if their last acceptance has left the window of the call or some section since read a clock past that acceptance's expiry |
| Replay.ReusedNonceKeepsOut | src/replay.rs:59-71 | a history in which a section read a clock past a proof's expiry and the proof is still refused, for its nonce was accepted since under another timestamp |
| Replay.BoundedInversionSafe | src/replay.rs:40-72 | with readings at most a skew ahead of this call's, a proof of age at most tolerance minus skew is not accepted twice |
| Replay.BoundIsTight | src/replay.rs:40-72 | for every tolerance, skew and greater age inside the window, one section ahead by the skew makes the service accept a proof of that age again |
| Replay.DoubleAcceptance | src/replay.rs:41-72 | a history of three calls with readings out of lock order that accepts one proof twice |
| Replay.CacheRefinesHistory | src/replay.rs:59-71 | in lock order every answer is that of a specification that never forgets and searches all acceptances for a live one |
| Replay.OrderedCacheExact | src/replay.rs:61-71 | in lock order the cache is exactly the acceptances inside the window of the last reading |
| Replay.AcceptedTwiceOnlyIfInverted | src/replay.rs:40-72 | between two acceptances of one proof some section read a clock past its expiry and ahead of the second reading |
| Replay.NoDoubleAcceptance | src/replay.rs:40-72 | in lock order no user, nonce and timestamp is accepted twice in a history |
| Replay.MemoryBound | src/replay.rs:45-78 | whatever the clocks read, the entries held are at most the acceptances made no more than two tolerances before the last reading |
| Replay.ReplayProtector.ActiveNoncesCount | src/replay.rs:74-78 | the count reported after any history is at most the acceptances of its last two windows |
| Groups.Group.MulMod | src/zkp_core_engine.rs:140-144 | scalars act modulo the group order |
| Groups.Group.MulInjective | src/zkp_core_engine.rs:178-183 | distinct scalars below the order give distinct multiples of a non-zero point |
| Schnorr.VerifyExactly | src/zkp_core_engine.rs:161-204 | every verdict for every key and proof: accepted exactly when s·G is R + e·Y for the big-endian number e of the digest of R, Y, the big-endian time and the nonce; which lengths, encodings and digests are errors or panics, and which |
| Schnorr.GenerateExactly | src/zkp_core_engine.rs:132-151 | a generated proof carries the bytes of k·G and reads back as k + e·x modulo the order for that digest number e; there is none exactly when the digest is no scalar |
| Schnorr.GeneratedProofs | src/zkp_core_engine.rs:132-184 | the verdict on a generated proof for every secret, key and blinding: accepted unless the blinding is zero or the key is not the secret's and the challenge is not zero |
| Schnorr.Completeness | src/zkp_core_engine.rs:132-184 | an honest proof is accepted |
| Schnorr.ResponseUnique | src/zkp_core_engine.rs:168-183 | of all 32-byte responses only the accepted proof's own is accepted; a value not below the order is an error, any other is rejected |
| Schnorr.TamperedResponseRefused | src/tcp/client.rs:34-38 | an accepted proof with its last response byte replaced by that byte plus one, modulo 256, and nothing else changed, is never accepted |
| Schnorr.PreimageInjective | src/zkp_core_engine.rs:193-197 | the hashed bytes determine commitment, key, timestamp and nonce |
| Schnorr.PreimageParts | src/zkp_core_engine.rs:193-197 | the hashed bytes are 90: commitment, key, big-endian timestamp, nonce |
| Schnorr.RestampedProof | src/zkp_core_engine.rs:178-203 | an accepted proof with another timestamp or nonce is rejected, unless the new digest is no scalar and verification panics, or the key is the identity, or the hash collides on two different preimages |
| Schnorr.SpecialSoundness | src/zkp_core_engine.rs:178-183 | two accepting equations with one commitment and different challenges yield a secret for the key |
| Schnorr.ExtractionRecoversSecret | src/zkp_core_engine.rs:178-183 | the value extracted is the prover's own secret |
| Schnorr.AcceptedProofsRevealSecret | src/zkp_core_engine.rs:161-184 | the same for two whole accepted proofs |
| Schnorr.PerfectSimulation | src/zkp_core_engine.rs:140-144 | for a fixed challenge the honest prover reaches exactly the accepting transcripts, each from one blinding, and a simulator without the secret reaches the same ones |
| Schnorr.SimulatedAreAccepting | src/zkp_core_engine.rs:178-183 | a transcript satisfies the verification equation exactly when the simulator makes it from its response |
| Schnorr.ValidCurveExists | src/zkp_core_engine.rs:125-204 | the assumptions on the curve are consistent |
| Wire.ProofExact | src/zkp_core_engine.rs:26-31 | the parser of a proof succeeds exactly on its print followed by anything, and leaves that |
| Wire.RequestExact | src/protocol.rs:5-10 | the same for a request with its nested proof |
| Wire.ResponseExact | src/protocol.rs:13-18 | the same for a response |
| Wire.KafkaRequestExact | src/protocol.rs:81-88 | the same for a Kafka request |
| Wire.DeserializeExact | src/protocol.rs:21-28 | bytes deserialize to a request exactly when they start with its print: trailing bytes are tolerated |
| Wire.RequestsPrefixFree | src/protocol.rs:38-42 | request prints are injective and prefix-free |
| Wire.ResponsesPrefixFree | src/protocol.rs:68-72 | response prints are injective and prefix-free |
| Wire.KafkaRequestsPrefixFree | src/protocol.rs:111-114 | Kafka request prints are injective and prefix-free |
| Wire.RequestLayout | src/protocol.rs:5-10 | where the fields of a printed request lie, each behind the eight little-endian bytes of its length |
| Wire.ProofLayout | src/zkp_core_engine.rs:26-31 | the same for a proof, whose time is the little-endian two's complement |
| Wire.ResponseLayout | src/protocol.rs:13-18 | the same for a response, whose verdict is one byte: 1 for success, 0 otherwise |
| Wire.KafkaRequestLayout | src/protocol.rs:81-88 | the same for a Kafka request |
| Bytes.BigEndianPlaces | src/codec.rs:61 | byte i of a big-endian encoding of width w is the digit of 256^(w - 1 - i) |
| Bytes.FromBigEndianPlaces | src/codec.rs:78-80 | the number read from big-endian bytes has exactly those digits |
| Bytes.TwosComplement | src/zkp_core_engine.rs:196 | the image of a signed integer is the integer modulo 2^64, and its top bit the sign |
| Framing.FrameLayout | src/codec.rs:59-62 | a frame is four bytes, the most significant first, that spell the payload's length modulo 2^32, then the payload |
| Framing.ZkpMessageCodec.Encode | src/codec.rs:47-64 | an item over the limit leaves the buffer as it was; any other appends four bytes that spell its length, the most significant first, and its payload |
| Framing.ZkpMessageCodec.Decode | src/codec.rs:71-105 | one decoding attempt: the first four bytes are read as the length, the most significant first; that number alone decides between waiting, refusing and taking a payload off, and what is left |
| Framing.DecodeStable | src/codec.rs:71-105 | a decoded item or error does not depend on bytes that arrive later |
| Framing.FragmentationIndependent | src/codec.rs:71-105 | however any byte stream is cut into chunks, the items, the first error and the leftover are those of the whole stream |
| Framing.DrainParses | src/codec.rs:71-105 | decoding reads a stream by its grammar: readable frames, then an incomplete frame, an overlong header or an unreadable frame |
| Framing.GrammarUnambiguous | src/codec.rs:71-105 | every reading of a stream by the grammar is the one decoding finds |
| Framing.RoundTripExact | src/codec.rs:47-105 | an encoded item reads back, leaving what follows, if and only if its payload is shorter than 2^32 bytes |
| Framing.CompleteFrames | src/codec.rs:71-105 | every byte position in a stream of frames has a number of frames that end by it, the next one ending later |
| Framing.PrefixRoundTrip | src/codec.rs:47-105 | after any prefix of an encoded stream, wherever it is cut, exactly the messages wholly inside it have come out, and the rest is kept |
| Framing.StreamRoundTrip | src/codec.rs:47-105 | messages encoded in turn and delivered in any chunks come out as sent, and nothing is left |
| Framing.Framed.Next | src/tcp/server.rs:108-121 | the next message of a stream is the one at the front of all bytes to come, arrived or not; ending inside a frame is an error |
| Gate.SuccessExactly | src/tcp/server.rs:129-191 | a request succeeds exactly when it names its registered key, is inside the window, has no live nonce and verifies under that key; GrantsAreJustified has it at the scene of every success of a run |
| Gate.CacheEffect | src/tcp/server.rs:129-178 | only requests that name their registered key touch the cache; a fresh proof uses up its nonce even if it does not verify; FinishedUsesNonce has it for every run |
| Gate.DenialsExactly | src/tcp/server.rs:129-191 | exactly when each refusal is given: unknown name, storage fault or unreadable stored key, key mismatch, outside the window, live nonce, wrong proof, unreadable proof; ReplayRefusalsAreGenuine has the replay clause for every run |
| Gate.CrashExactly | src/tcp/server.rs:181-191 | exactly which requests make the task panic |
| Gate.TcpReplyExactly | src/tcp/server.rs:131-204 | a reply is to the user of the request and says success if and only if the user is enrolled under the key it names, its time is inside the window, its nonce has no live entry and its proof proves the key |
| Gate.KafkaReplyExactly | src/kafka/verifier.rs:172-177 | a reply carries the id and user of its record, and success on the same condition |
| Gate.ReasonExactly | src/tcp/server.rs:129-191 | every decision and the detail it carries, stage by stage |
| Gate.TcpReplyTells | src/tcp/server.rs:131-190 | the text of a reply for each way a request can end |
| Gate.KafkaReplyTells | src/kafka/verifier.rs:146-174 | the same over Kafka |
| Messages.WindowRefusalTells | src/replay.rs:9-15 | a refusal by the window names the age and the tolerance, or how far the proof lies ahead |
| Messages.DigitsExact | src/replay.rs:9-15 | numbers in texts are in decimal, the most significant digit first |
| Gate.TransportsAgree | src/kafka/verifier.rs:129-197 | from equal states any requests get the same decisions for the same reasons, and leave the same cache, through either transport, up to the first that makes the Kafka worker panic |
| Gate.HonestClientAdmitted | src/tcp/server.rs:129-191 | an honest client with an enrolled key, a good clock and an unused nonce is let in |
| Connection.BankServer.HandleRequest | src/tcp/server.rs:128-191 | the four stages on the shared state take the gate's decision and leave its cache |
| Connection.BankServer.HandleConnection | src/tcp/server.rs:99-208 | replies and ending of a connection are a function of its bytes, whatever the chunks and the interference; the wire holds the framed replies; the registry is left as the last request met it and the cache as the gate leaves it |
| Connection.OneReplyPerRequest | src/tcp/server.rs:108-205 | whatever k requests are answered before one that panics or cannot be sent, the replies are theirs, in order and under their names; then what ends the session |
| Connection.AnsweredExactly | src/tcp/server.rs:128-205 | with a short enough name and a store that answers, a request gets no reply exactly when the link is down or a fresh proof makes verification panic |
| Connection.EveryRequestAnswered | src/tcp/server.rs:108-205 | over any chunks and any interference, when every request in the bytes meets conditions checkable before it is served, each gets the gate's decision as its one reply, in order and under its name, and at most the malformed-packet farewell follows |
| Connection.RepliesAreTrue | src/tcp/server.rs:108-205 | in any chunks and under any interference, each reply goes to the user of its request and says success if and only if the request deserves it by the registry, clock and cache it met; then exactly how the session ends, and a farewell never says success |
| Connection.SilenceExactly | src/tcp/server.rs:108-205 | an unanswered request ends the task by a panic exactly when its fresh proof makes verification panic, otherwise by a failed send |
| Connection.ReplyFits | src/tcp/server.rs:128-204 | names of up to 32,730 bytes get replies inside the frame limit; for unregistered users that bound is exact |
| Connection.RequestsArrive | src/codec.rs:47-105 | framed requests reach the server as they were, in any chunks |
| Connection.RepliesArrive | src/codec.rs:47-105 | framed replies reach the client as they were, in any chunks |
| Connection.RequestReadsBackExactly | src/codec.rs:47-105 | whatever the frame limit, an encoded request reads back, leaving what follows, if and only if its print is shorter than 2^32 bytes |
| Connection.OverlongRequestFails | src/codec.rs:60-61 | a concrete request that a frame limit of 2^32 lets through and that does not read back |
| Connection.HonestClientServed | src/tcp/server.rs:99-208 | however its framed request is cut up, an honest client gets exactly one reply, a success |
| Connection.HonestRequestSize | src/protocol.rs:5-10 | an honest request prints to 154 bytes and its name |
| Interleaving.StepKeepsInv | src/tcp/server.rs:129-204 | every step of every task keeps the invariant: each phase and each conclusion goes back to steps of the run, and tasks take requests one at a time |
| Interleaving.InvAlways | src/tcp/server.rs:76-86 | the invariant holds after every interleaving of any number of tasks, with a changing registry and clocks that run anyhow |
| Interleaving.RegistryIsLastSet | src/storage.rs:63-79 | at every moment of every run the registry is the one last set from outside, or the initial one: tasks read it and never write it |
| Interleaving.EverySectionIsTaken | src/tcp/server.rs:129-167 | every critical section of a run goes back to a lookup of the request under its enrolled key and a reading inside the window, by one task: no other request reaches the cache |
| Interleaving.EveryConclusionIsTheGates | src/tcp/server.rs:128-204 | every success, refusal and panic of every run is the gate's decision on its request at the registry of its lookup step, the reading of its clock step and the cache at its critical section, which leaves the cache the gate leaves |
| Interleaving.ConcludedOnce | src/tcp/server.rs:108-205 | no request taken up is concluded twice |
| Interleaving.EveryRequestConcluded | src/tcp/server.rs:108-205 | whatever others do in between, a request an idle task takes up has exactly one conclusion, the gate's, once the task has read the clock, entered and finished |
| Interleaving.GrantsAreJustified | src/tcp/server.rs:128-204 | every success of every run goes back to four steps of its task, in order: a lookup while the registry last set from outside held the key the request names, a reading within the tolerance, an entry into a cache without a live entry for the nonce, and a proof that satisfies the equation under that key |
| Interleaving.FinishedUsesNonce | src/replay.rs:59-71 | a request that got past its critical section left its nonce in the cache there, whatever verification said |
| Interleaving.CacheIsOfHistory | src/replay.rs:59-71 | in every run the cache is the one left by the sections entered, each of which passed the window test |
| Interleaving.NoDoubleGrant | src/tcp/server.rs:167-191 | if one user, nonce and timestamp passes twice, a third section, entered at a step between those of the two, read a clock past the proof's expiry and ahead of the later one's reading |
| Inversion.DoubleGrant | src/tcp/server.rs:167-191 | for every service, accepted proof and later reading inside its window, and any other enrolled request timed past the proof's expiry, a run of three tasks that lets the proof in twice |
| Inversion.DoubleGrantExists | src/tcp/server.rs:167-191 | a concrete service with two enrolled users where it does |
| Interleaving.BoundedInversionAlways | src/replay.rs:40-72 | in every run, when no earlier section read a clock more than a skew ahead, a second use of a proof of age at most tolerance minus skew is refused as a replay |
| Interleaving.ReplayRefusalsAreGenuine | src/replay.rs:65-68 | every refusal as a replay goes back to an earlier section that accepted that user and nonce with a time still inside the window |
| Interleaving.MemoryBoundAlways | src/replay.rs:75-78 | the memory bound in every run |
| Sessions.TaskIsAConnection | src/tcp/server.rs:76-86 | for every task of every run and any link, under a schedule made of the registries, readings and caches at the task's own steps the connection loop sends exactly the replies of its conclusions, in order, up to the first that is a panic or cannot be sent |
| Sessions.TaskServesBytes | src/tcp/server.rs:99-208 | the same from the framed bytes of those requests, in any chunks |
| Sessions.OwnExact | src/tcp/server.rs:99-208 | what a client sees are all the conclusions of its task and no others |
| Kafka.SpanExact | src/kafka/verifier.rs:103-111 | a span of a log holds exactly its records in an offset range, in order |
| Kafka.KafkaVerifierWorker.ProcessRecord | src/kafka/verifier.rs:129-197 | the decision on one record, the cache it leaves and the reply it publishes |
| Kafka.ReadExactly | src/kafka/verifier.rs:135-138 | a record is read as JSON, and one that is not JSON as the bincode print it starts with |
| Kafka.RecordExactly | src/kafka/verifier.rs:135-197 | a readable record panics, is answered under its id and user with success if and only if it deserves it, or fails to be published, and when which; the cache left is the replay check's |
| Kafka.RecordIsAnswered | src/kafka/verifier.rs:103-190 | every answered record of a run has its true reply in the responses, after the replies to the records before it |
| Kafka.PublicationAt | src/kafka/verifier.rs:103-190 | the responses are the replies to the answered records, in order, and nothing else |
| Kafka.KafkaVerifierWorker.Run | src/kafka/verifier.rs:79-126 | whatever fetches fail, the processed records are exactly those that the fetches before the stop return from the starting offset on, once each and in order, cut only at one that panics; the published replies are theirs, and the shared state is left as the last of them does |
| Kafka.CaughtUp | src/kafka/verifier.rs:101-111 | after a last fetch that may return everything, the records due are all those of the log from the starting offset on |
| Kafka.WaitForResponse | src/kafka/prover.rs:87-122 | what is found is the first match among the records the fetches return from the start on; the scan skips no record and reads none beyond the match |
| Kafka.FirstMatchLeast | src/kafka/prover.rs:102-111 | no record before the match found matches; without a find none does |
| Kafka.SuccessfulWaitsAgree | src/kafka/prover.rs:87-122 | on a log that keeps its records, successful waits find the same response |

## Left out

- The arithmetic of the curve, SHA-256, randomness and zeroization: blinding and nonce are arguments, the curve is any valid one.
- The SQLite registry beyond an atomic lookup in a map of stored keys, with database faults as an input.
- JSON, UUIDs and the wall clock: JSON readers are arbitrary functions, ids and times are arguments.
- UTF-8: an arbitrary predicate says which bytes are a string.
- Sockets, task spawning and shutdown: bytes arrive in arbitrary chunks, polls follow an arbitrary script.
- Builds that trap arithmetic overflow: there a timestamp too far away panics where the model wraps.
- A negative tolerance or clock, and poisoned mutexes.
- Offsets that a Kafka broker refuses because retention removed them are failed fetches.
- Texts of library errors inside replies: they are arbitrary, and the size bound holds for storage faults of up to 32,000 bytes.
- Framing.ZkpMessageCodec.Encode: does not model a failing serializer, because these messages always serialize.
- Framing.Framed.Next: the end of a stream follows the default rule of tokio-util, which is not part of the repository.
- The end of a task at a panic or a failed send: in a run it may go on, so that the runs of the program are among those of the model; `Sessions` cuts the connection there.
- Binaries, argument parsing, key files and console output.
