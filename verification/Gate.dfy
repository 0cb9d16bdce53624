/** The authentication decision, as each of the two transports takes it: registry lookup, key
    match, replay check, proof verification (src/tcp/server.rs, src/kafka/verifier.rs). */
module Gate {
  import opened Bytes
  import opened Protocol
  import opened Replay
  import opened Schnorr
  import opened Messages
  import opened Framing

  type Registry = map<Text, seq<byte>>

  /** What does not change while a service runs. utf8 tells which bytes are a string, badKeyText
      is what the store says of stored bytes that do not decode, and codecText describes an
      error of the codec. */
  datatype Service<!P(!new, ==)> = Service(
    curve: Curve<P>,
    drift: i64,
    utf8: Text -> bool,
    badKeyText: Text,
    codecText: CodecError -> Text)

  /** What a request meets: the registry when it is looked up, a database fault if there is one,
      the clock, and the cache when the lock is taken. */
  datatype Scene = Scene(registry: Registry, fault: Option<Text>, now: i64, cache: Cache)

  datatype Lookup<+P> = Registered(key: P) | Unknown | StorageError(detail: Text)

  function GetPublicKey<P(!new, ==)>(sv: Service<P>, registry: Registry, fault: Option<Text>, user: Text): Lookup<P> {
    if fault.Some? then StorageError(fault.value)
    else if user !in registry then Unknown
    else
      match sv.curve.fromBytes(registry[user])
      case OnCurve(p) => Registered(p)
      case _ => StorageError(sv.badKeyText)
  }

  /** The answer to a request, or the panic of the task that was to give it. */
  datatype Decision = Decided(success: bool, reason: Reason) | Crash

  // ----- TCP: early exits -----

  function TcpDecide<P(!new, ==)>(sv: Service<P>, sc: Scene, q: AuthRequest): (Cache, Decision) {
    match GetPublicKey(sv, sc.registry, sc.fault, q.userId)
    case Unknown => (sc.cache, Decided(false, NotRegistered))
    case StorageError(detail) => (sc.cache, Decided(false, StorageFailed(detail)))
    case Registered(pk) =>
      if q.publicKey != sv.curve.toBytes(pk) then (sc.cache, Decided(false, KeyMismatch))
      else
        match Check(sv.drift, sc.cache, sc.now, q.userId, q.proof)
        case (cache, Refused(e)) => (cache, Decided(false, ReplayRefused(e)))
        case (cache, Fresh) => (cache, VerifyDecision(Verify(sv.curve, pk, q.proof)))
  }

  function VerifyDecision(v: Verdict): Decision {
    match v
    case Accepted => Decided(true, IdentityVerified)
    case Rejected => Decided(false, ProofMismatch)
    case Failed(e) => Decided(false, ProofUnreadable(e))
    case Panicked => Crash
  }

  function TcpResponse(user: Text, a: Decision): AuthResponse
    requires a.Decided?
  {
    AuthResponse(user, a.success, TcpText(user, a.reason))
  }

  // ----- Kafka: one nested match -----

  function KafkaDecide<P(!new, ==)>(sv: Service<P>, sc: Scene, q: KafkaAuthRequest): (Cache, Decision) {
    match GetPublicKey(sv, sc.registry, sc.fault, q.userId)
    case Registered(pk) =>
      if q.publicKey != sv.curve.toBytes(pk) then (sc.cache, Decided(false, KeyMismatch))
      else
        var (cache, outcome) := Check(sv.drift, sc.cache, sc.now, q.userId, q.proof);
        (match outcome
         case Refused(e) => (cache, Decided(false, ReplayRefused(e)))
         case Fresh =>
           match Verify(sv.curve, pk, q.proof)
           case Accepted => (cache, Decided(true, IdentityVerified))
           case Rejected => (cache, Decided(false, ProofMismatch))
           case Failed(e) => (cache, Decided(false, ProofUnreadable(e)))
           case Panicked => (cache, Crash))
    case Unknown => (sc.cache, Decided(false, NotRegistered))
    case StorageError(detail) => (sc.cache, Decided(false, StorageFailed(detail)))
  }

  function KafkaResponse(q: KafkaAuthRequest, a: Decision, sentAt: i64): KafkaAuthResponse
    requires a.Decided?
  {
    KafkaAuthResponse(q.requestId, q.userId, a.success, KafkaText(q.userId, a.reason), sentAt)
  }

  // ----- What a decision means -----

  /** The request is for a registered key and names it. */
  predicate NamesKey<P(!new, ==)>(sv: Service<P>, sc: Scene, q: AuthRequest, pk: P) {
    GetPublicKey(sv, sc.registry, sc.fault, q.userId) == Registered(pk) && q.publicKey == sv.curve.toBytes(pk)
  }

  /** The service says yes exactly when the request names the registered key, its proof is inside
      the window, its nonce has no live entry, and it verifies under that key. */
  lemma SuccessExactly<P(!new)>(sv: Service<P>, sc: Scene, q: AuthRequest)
    requires SaneClock(sv.drift, sc.now)
    ensures var a, key := TcpDecide(sv, sc, q).1, (q.userId, q.proof.nonce);
            (a.Decided? && a.success) <==>
            exists pk ::
              && NamesKey(sv, sc, q, pk)
              && Age(sc.now, q.proof.timestamp) <= sv.drift
              && !(key in sc.cache && sc.cache[key] >= sc.now - sv.drift)
              && Verify(sv.curve, pk, q.proof) == Accepted
  {
    var a := TcpDecide(sv, sc, q).1;
    CheckExact(sv.drift, sc.cache, sc.now, q.userId, q.proof, (q.userId, q.proof.nonce));
    if a.Decided? && a.success {
      assert NamesKey(sv, sc, q, GetPublicKey(sv, sc.registry, sc.fault, q.userId).key);
    }
  }

  /** The request got past lookup and key match. */
  predicate Identified<P(!new, ==)>(sv: Service<P>, sc: Scene, q: AuthRequest) {
    var found := GetPublicKey(sv, sc.registry, sc.fault, q.userId);
    found.Registered? && q.publicKey == sv.curve.toBytes(found.key)
  }

  /** Only requests that name their registered key touch the cache, and then it changes by the
      replay check alone: a proof that is fresh but does not verify still uses up its nonce. */
  lemma CacheEffect<P(!new)>(sv: Service<P>, sc: Scene, q: AuthRequest)
    ensures var (cache, a) := TcpDecide(sv, sc, q);
            && cache == (if !Identified(sv, sc, q) then sc.cache
                         else Check(sv.drift, sc.cache, sc.now, q.userId, q.proof).0)
            && (Identified(sv, sc, q) && !(a.Decided? && a.reason.ReplayRefused?) ==>
                  (q.userId, q.proof.nonce) in cache && cache[(q.userId, q.proof.nonce)] == q.proof.timestamp)
  {
  }

  /** The task panics exactly on a fresh request for its registered key whose response has not 32
      bytes behind a readable commitment, or whose digest is no scalar. */
  lemma CrashExactly<P(!new)>(sv: Service<P>, sc: Scene, q: AuthRequest)
    ensures TcpDecide(sv, sc, q).1 == Crash <==>
            && Identified(sv, sc, q)
            && Check(sv.drift, sc.cache, sc.now, q.userId, q.proof).1 == Fresh
            && VerifyPanics(sv.curve, GetPublicKey(sv, sc.registry, sc.fault, q.userId).key, q.proof)
    ensures TcpDecide(sv, sc, q).1 == Crash <==> Panics(sv, sc, q)
  {
    if Identified(sv, sc, q) {
      VerifyPanicsExactly(sv.curve, GetPublicKey(sv, sc.registry, sc.fault, q.userId).key, q.proof);
    }
  }

  predicate VerifyPanics<P(!new, ==)>(c: Curve<P>, y: P, proof: Proof) {
    var r := c.fromBytes(proof.rPoint);
    && r != BadFormat
    && (|proof.sScalar| != 32 ||
        (r.OnCurve? && FromBigEndian(proof.sScalar) < c.group.order &&
         Challenge(c, r.point, y, proof.timestamp, proof.nonce) == None))
  }

  lemma VerifyPanicsExactly<P(!new)>(c: Curve<P>, y: P, proof: Proof)
    ensures Verify(c, y, proof) == Panicked <==> VerifyPanics(c, y, proof)
  {
  }

  /** The request makes the task panic. */
  predicate Panics<P(!new, ==)>(sv: Service<P>, sc: Scene, q: AuthRequest) {
    && Identified(sv, sc, q)
    && Check(sv.drift, sc.cache, sc.now, q.userId, q.proof).1 == Fresh
    && VerifyPanics(sv.curve, GetPublicKey(sv, sc.registry, sc.fault, q.userId).key, q.proof)
  }

  /** Every refusal gives its own reason, in the order of the stages. */
  lemma DenialsExactly<P(!new)>(sv: Service<P>, sc: Scene, q: AuthRequest)
    requires SaneClock(sv.drift, sc.now)
    ensures var a, key := TcpDecide(sv, sc, q).1, (q.userId, q.proof.nonce);
            var found := GetPublicKey(sv, sc.registry, sc.fault, q.userId);
            var inside := Age(sc.now, q.proof.timestamp) <= sv.drift;
            var live := key in sc.cache && sc.cache[key] >= sc.now - sv.drift;
            var reached := Identified(sv, sc, q) && inside && !live;
            && (a == Decided(false, NotRegistered) <==> sc.fault == None && q.userId !in sc.registry)
            && (a.Decided? && a.reason.StorageFailed? <==>
                  sc.fault.Some? || (q.userId in sc.registry && !sv.curve.fromBytes(sc.registry[q.userId]).OnCurve?))
            && (a == Decided(false, KeyMismatch) <==> found.Registered? && !Identified(sv, sc, q))
            && (a == Decided(false, ReplayRefused(ReplayDetected)) <==> Identified(sv, sc, q) && inside && live)
            && (a.Decided? && a.reason.ReplayRefused? && a.reason.replay != ReplayDetected <==>
                  Identified(sv, sc, q) && !inside)
            && (a == Decided(false, ProofMismatch) <==> reached && Verify(sv.curve, found.key, q.proof) == Rejected)
            && (forall e :: a == Decided(false, ProofUnreadable(e)) <==>
                  reached && Verify(sv.curve, found.key, q.proof) == Failed(e))
  {
    hide Verify, Check;
    CheckExact(sv.drift, sc.cache, sc.now, q.userId, q.proof, (q.userId, q.proof.nonce));
  }

  // ----- What a reply says -----

  /** The request deserves to be let in, in terms of what is stored and sent: the user is enrolled
      under the key the request names, the time is inside the window, the nonce has no live
      entry, and the proof proves the key. */
  predicate Deserves<P(!new, ==)>(sv: Service<P>, sc: Scene, q: AuthRequest) {
    && sc.fault == None && q.userId in sc.registry
    && var stored := sv.curve.fromBytes(sc.registry[q.userId]);
       && stored.OnCurve? && q.publicKey == sv.curve.toBytes(stored.point)
       && Age(sc.now, q.proof.timestamp) <= sv.drift
       && !((q.userId, q.proof.nonce) in sc.cache && sc.cache[(q.userId, q.proof.nonce)] >= sc.now - sv.drift)
       && Proves(sv.curve, stored.point, q.proof)
  }

  lemma AdmittedExactly<P(!new)>(sv: Service<P>, sc: Scene, q: AuthRequest)
    requires SaneClock(sv.drift, sc.now)
    ensures var a := TcpDecide(sv, sc, q).1; a.Decided? && a.success <==> Deserves(sv, sc, q)
    ensures Deserves(sv, sc, q) ==> TcpDecide(sv, sc, q).1 == Decided(true, IdentityVerified)
  {
    hide Verify, Proves, Check;
    CheckExact(sv.drift, sc.cache, sc.now, q.userId, q.proof, (q.userId, q.proof.nonce));
    if sc.fault == None && q.userId in sc.registry && sv.curve.fromBytes(sc.registry[q.userId]).OnCurve? {
      VerifyExactly(sv.curve, sv.curve.fromBytes(sc.registry[q.userId]).point, q.proof);
    }
  }

  /** A reply over TCP is to the user of the request, and says yes exactly to those who deserve it. */
  lemma TcpReplyExactly<P(!new)>(sv: Service<P>, sc: Scene, q: AuthRequest)
    requires SaneClock(sv.drift, sc.now) && TcpDecide(sv, sc, q).1.Decided?
    ensures var r := TcpResponse(q.userId, TcpDecide(sv, sc, q).1);
            r.userId == q.userId && (r.success <==> Deserves(sv, sc, q))
  {
    hide TcpDecide, Deserves;
    AdmittedExactly(sv, sc, q);
  }

  function RequestOf(q: KafkaAuthRequest): AuthRequest {
    AuthRequest(q.userId, q.publicKey, q.proof)
  }

  /** A reply over Kafka carries the id and the user of the record, and the same verdict. */
  lemma KafkaReplyExactly<P(!new)>(sv: Service<P>, sc: Scene, q: KafkaAuthRequest, sentAt: i64)
    requires SaneClock(sv.drift, sc.now) && KafkaDecide(sv, sc, q).1.Decided?
    ensures var r := KafkaResponse(q, KafkaDecide(sv, sc, q).1, sentAt);
            && r.requestId == q.requestId && r.userId == q.userId && r.timestamp == sentAt
            && (r.success <==> Deserves(sv, sc, RequestOf(q)))
  {
    hide TcpDecide, KafkaDecide, Deserves;
    DecisionsAgree(sv, sc, RequestOf(q), q.requestId, q.timestamp);
    AdmittedExactly(sv, sc, RequestOf(q));
  }

  /** The reason of every decision, down to the detail it carries, in the order of the stages. */
  function ReasonFor<P(!new, ==)>(sv: Service<P>, sc: Scene, q: AuthRequest): Option<Reason> {
    if sc.fault.Some? then Some(StorageFailed(sc.fault.value))
    else if q.userId !in sc.registry then Some(NotRegistered)
    else
      match sv.curve.fromBytes(sc.registry[q.userId])
      case BadFormat => Some(StorageFailed(sv.badKeyText))
      case OffCurve => Some(StorageFailed(sv.badKeyText))
      case OnCurve(pk) =>
        if q.publicKey != sv.curve.toBytes(pk) then Some(KeyMismatch)
        else if WindowError(sv.drift, sc.now, q.proof.timestamp).Some?
        then Some(ReplayRefused(WindowError(sv.drift, sc.now, q.proof.timestamp).value))
        else if (q.userId, q.proof.nonce) in sc.cache && sc.cache[(q.userId, q.proof.nonce)] >= sc.now - sv.drift
        then Some(ReplayRefused(ReplayDetected))
        else
          match Verify(sv.curve, pk, q.proof)
          case Accepted => Some(IdentityVerified)
          case Rejected => Some(ProofMismatch)
          case Failed(e) => Some(ProofUnreadable(e))
          case Panicked => None
  }

  lemma ReasonExactly<P(!new)>(sv: Service<P>, sc: Scene, q: AuthRequest)
    requires SaneClock(sv.drift, sc.now)
    ensures TcpDecide(sv, sc, q).1 ==
              match ReasonFor(sv, sc, q)
              case None => Crash
              case Some(reason) => Decided(reason == IdentityVerified, reason)
  {
    hide Verify, WindowError, Section;
    CheckExact(sv.drift, sc.cache, sc.now, q.userId, q.proof, (q.userId, q.proof.nonce));
  }

  /** The text of a reply over TCP, for each reason. */
  lemma TcpReplyTells<P(!new)>(sv: Service<P>, sc: Scene, q: AuthRequest)
    requires SaneClock(sv.drift, sc.now) && ReasonFor(sv, sc, q).Some?
    ensures TcpDecide(sv, sc, q).1.Decided?
    ensures var text := TcpResponse(q.userId, TcpDecide(sv, sc, q).1).message;
            match ReasonFor(sv, sc, q).value
            case NotRegistered =>
              text == Ascii("Authentication failed: User '") + q.userId + Ascii("' is not registered with bank")
            case StorageFailed(detail) => text == Ascii("Storage lookup error: ") + detail
            case KeyMismatch => text == Ascii("Authentication failed: Public key does not match bank records")
            case ReplayRefused(e) => text == Ascii("Security rejection: ") + ReplayText(e)
            case IdentityVerified =>
              text == Ascii("Identity verified successfully for user '") + q.userId + Ascii("'.")
            case ProofMismatch =>
              text == Ascii("Verification failed: Mathematical proof check did not match public key.")
            case ProofUnreadable(e) => text == Ascii("Cryptographic verification error: ") + VerifyText(e)
  {
    hide Ascii, ReplayText, VerifyText, TcpDecide, ReasonFor;
    ReasonExactly(sv, sc, q);
  }

  /** The text of a reply over Kafka, for each reason. */
  lemma KafkaReplyTells<P(!new)>(sv: Service<P>, sc: Scene, q: KafkaAuthRequest, sentAt: i64)
    requires SaneClock(sv.drift, sc.now) && ReasonFor(sv, sc, RequestOf(q)).Some?
    ensures KafkaDecide(sv, sc, q).1.Decided?
    ensures var text := KafkaResponse(q, KafkaDecide(sv, sc, q).1, sentAt).message;
            match ReasonFor(sv, sc, RequestOf(q)).value
            case NotRegistered =>
              text == Ascii("Authentication failed: User '") + q.userId + Ascii("' is not registered with bank")
            case StorageFailed(detail) => text == Ascii("Database storage error: ") + detail
            case KeyMismatch => text == Ascii("Authentication failed: Public key does not match bank records")
            case ReplayRefused(e) => text == Ascii("Security rejection: ") + ReplayText(e)
            case IdentityVerified => text == Ascii("ZKP Identity verified successfully for '") + q.userId + Ascii("'")
            case ProofMismatch => text == Ascii("Verification failed: Mathematical check failed")
            case ProofUnreadable(e) => text == Ascii("Cryptographic math error: ") + VerifyText(e)
  {
    hide Ascii, ReplayText, VerifyText, TcpDecide, KafkaDecide, ReasonFor;
    DecisionsAgree(sv, sc, RequestOf(q), q.requestId, q.timestamp);
    ReasonExactly(sv, sc, RequestOf(q));
  }

  // ----- The transports agree -----

  /** One request as it meets a transport: what surrounds it except the cache. */
  datatype Visit = Visit(registry: Registry, fault: Option<Text>, now: i64, request: AuthRequest)

  function At(v: Visit, cache: Cache): Scene {
    Scene(v.registry, v.fault, v.now, cache)
  }

  /** The decisions in order, and the final cache. */
  function RunTcp<P(!new, ==)>(sv: Service<P>, cache: Cache, visits: seq<Visit>): (seq<Decision>, Cache)
    decreases |visits|
  {
    if visits == [] then ([], cache)
    else
      var (cache', a) := TcpDecide(sv, At(visits[0], cache), visits[0].request);
      var (later, last) := RunTcp(sv, cache', visits[1..]);
      ([a] + later, last)
  }

  /** A request as a record of the log, under whatever id and time it carries there. */
  function AsRecord(q: AuthRequest, id: Text, time: i64): KafkaAuthRequest {
    KafkaAuthRequest(id, q.userId, q.publicKey, q.proof, time)
  }

  /** The worker goes through the same requests as records; it ends when one makes it panic. */
  function RunKafka<P(!new, ==)>(sv: Service<P>, cache: Cache, visits: seq<Visit>, ids: nat -> Text,
                                 times: nat -> i64): (seq<Decision>, Cache)
    decreases |visits|
  {
    if visits == [] then ([], cache)
    else
      var record := AsRecord(visits[0].request, ids(|visits|), times(|visits|));
      var (cache', a) := KafkaDecide(sv, At(visits[0], cache), record);
      if a.Crash? then ([a], cache')
      else
        var (later, last) := RunKafka(sv, cache', visits[1..], ids, times);
        ([a] + later, last)
  }

  lemma DecisionsAgree<P(!new)>(sv: Service<P>, sc: Scene, q: AuthRequest, id: Text, time: i64)
    ensures TcpDecide(sv, sc, q) == KafkaDecide(sv, sc, AsRecord(q, id, time))
  {
  }

  /** From equal states, any requests at any times get the same decisions for the same reasons
      through either transport, and leave the same cache, for as long as the worker goes on: to
      the end, or to a panic. */
  lemma {:induction false} TransportsAgree<P(!new)>(sv: Service<P>, cache: Cache, visits: seq<Visit>, ids: nat -> Text,
                                                    times: nat -> i64)
    ensures var kafka := RunKafka(sv, cache, visits, ids, times);
            var n := |kafka.0|;
            && n <= |visits|
            && kafka == RunTcp(sv, cache, visits[..n])
            && (forall i :: 0 <= i < n ==> (kafka.0[i] == Crash ==> i == n - 1))
            && (n < |visits| ==> n > 0 && kafka.0[n - 1] == Crash)
    decreases |visits|
  {
    hide TcpDecide, KafkaDecide;
    if visits == [] {
      assert visits[..0] == [];
    } else {
      var v, k := visits[0], |visits|;
      DecisionsAgree(sv, At(v, cache), v.request, ids(k), times(k));
      var (cache', a) := TcpDecide(sv, At(v, cache), v.request);
      TransportsAgree(sv, cache', visits[1..], ids, times);
      var n := |RunKafka(sv, cache, visits, ids, times).0|;
      if a.Crash? {
        var one := visits[..1];
        assert one[0] == v && one[1..] == [];
        assert RunTcp(sv, cache', one[1..]) == ([], cache');
        assert [a] + [] == [a];
        assert RunTcp(sv, cache, one) == ([a], cache');
      } else {
        assert visits[..n][1..] == visits[1..][..n - 1];
      }
    }
  }

  // ----- Honest clients -----

  /** The request of a client with secret x, blinding k and the given time and nonce. */
  function HonestRequest<P(!new, ==)>(c: Curve<P>, user: Text, x: nat, k: nat, timestamp: i64,
                                      nonce: Nonce): Option<AuthRequest>
    requires c.group.order > 0
  {
    var y := c.group.Mul(x, c.group.gen);
    match Generate(c, x, y, timestamp, nonce, k)
    case None => None
    case Some(p) => Some(AuthRequest(user, c.toBytes(y), p))
  }

  /** The store holds the client's key, reads without fault, and its clock and nonce are good. */
  predicate ReadyFor<P(!new, ==)>(sv: Service<P>, sc: Scene, user: Text, y: P, timestamp: i64, nonce: Nonce) {
    && SaneClock(sv.drift, sc.now) && Age(sc.now, timestamp) <= sv.drift
    && sc.fault == None && user in sc.registry && sc.registry[user] == sv.curve.toBytes(y)
    && ((user, nonce) in sc.cache ==> sc.cache[(user, nonce)] < sc.now - sv.drift)
  }

  /** An honest client whose key is enrolled, whose clock is within the tolerance and whose nonce
      has no live entry is let in. */
  lemma HonestClientAdmitted<P(!new)>(sv: Service<P>, sc: Scene, user: Text, x: nat, y: P, k: nat, r: P,
                                      timestamp: i64, nonce: Nonce)
    requires sv.curve.Valid() && 0 < x < sv.curve.group.order && 0 < k < sv.curve.group.order
    requires y == sv.curve.group.Mul(x, sv.curve.group.gen) && r == sv.curve.group.Mul(k, sv.curve.group.gen)
    requires ReadyFor(sv, sc, user, y, timestamp, nonce)
    requires Challenge(sv.curve, r, y, timestamp, nonce) != None
    ensures HonestRequest(sv.curve, user, x, k, timestamp, nonce).Some?
    ensures TcpDecide(sv, sc, HonestRequest(sv.curve, user, x, k, timestamp, nonce).value).1 ==
              Decided(true, IdentityVerified)
  {
    var c := sv.curve;
    var q := HonestRequest(c, user, x, k, timestamp, nonce).value;
    KeyReadsBack(c, x);
    Completeness(c, x, timestamp, nonce, k);
    CheckExact(sv.drift, sc.cache, sc.now, user, q.proof, (user, nonce));
  }

  lemma KeyReadsBack<P(!new)>(c: Curve<P>, x: nat)
    requires c.Valid() && 0 < x < c.group.order
    ensures var y := c.group.Mul(x, c.group.gen); c.fromBytes(c.toBytes(y)) == OnCurve(y)
  {
    var y := c.group.Mul(x, c.group.gen);
    if y == c.group.zero { c.group.NoTorsion(x, c.group.gen); }
    assert c.PointBytesAt(y);
  }
}
