/** The per-connection loop of the server (src/tcp/server.rs). The connections of a server share
    its registry and replay cache: what a request meets there is given by an arbitrary schedule
    of moments, so that every result holds whatever the other connections do in between. */
module Connection {
  import opened Bytes
  import opened Protocol
  import opened Wire
  import opened Framing
  import opened Replay
  import opened Schnorr
  import opened Messages
  import opened Gate

  /** What the n-th request of a connection meets, and whether its reply can be sent. */
  datatype Moment = Moment(scene: Scene, linkUp: bool)

  datatype Ending = Closed | DecodeFailed(error: CodecError) | SendFailed | TaskPanicked

  datatype Session = Session(sent: seq<AuthResponse>, ending: Ending)

  function RequestReader(utf8: Text -> bool): seq<byte> -> Option<AuthRequest> {
    b => DeserializeRequest(utf8, b)
  }

  function RequestPrinter(): AuthRequest -> seq<byte> {
    q => PrintRequest(q)
  }

  function ResponseReader(utf8: Text -> bool): seq<byte> -> Option<AuthResponse> {
    b => DeserializeResponse(utf8, b)
  }

  function ResponsePrinter(): AuthResponse -> seq<byte> {
    a => PrintResponse(a)
  }

  predicate FitsFrame(a: AuthResponse) {
    |PrintResponse(a)| <= MAX_FRAME_SIZE
  }

  function MalformedResponse<P(!new, ==)>(sv: Service<P>, e: CodecError): AuthResponse {
    AuthResponse(Ascii("unknown"), false, Ascii("Malformed packet: ") + sv.codecText(e))
  }

  /** A stream that ends inside a frame ends with an error. */
  function AtEof(s: Stream<AuthRequest>): Stream<AuthRequest> {
    if s.error == None && s.rest != [] then s.(error := Some(BytesRemaining)) else s
  }

  function Prepend(sent: seq<AuthResponse>, s: Session): Session {
    Session(sent + s.sent, s.ending)
  }

  /** The last thing a connection does with a stream that went wrong. */
  function Malformed<P(!new, ==)>(sv: Service<P>, linkUp: bool, e: CodecError): Session {
    var r := MalformedResponse(sv, e);
    Session(if FitsFrame(r) && linkUp then [r] else [], DecodeFailed(e))
  }

  /** The request gets a reply that goes out. */
  predicate Answered<P(!new, ==)>(sv: Service<P>, m: Moment, q: AuthRequest) {
    var a := TcpDecide(sv, m.scene, q).1;
    a.Decided? && FitsFrame(TcpResponse(q.userId, a)) && m.linkUp
  }

  function ReplyTo<P(!new, ==)>(sv: Service<P>, m: Moment, q: AuthRequest): AuthResponse
    requires Answered(sv, m, q)
  {
    TcpResponse(q.userId, TcpDecide(sv, m.scene, q).1)
  }

  /** How a connection ends on a request without reply. */
  function Silence<P(!new, ==)>(sv: Service<P>, m: Moment, q: AuthRequest): Ending {
    if TcpDecide(sv, m.scene, q).1.Crash? then TaskPanicked else SendFailed
  }

  /** The session over decoded requests, the first of which is the i-th of the connection. */
  function Serve<P(!new, ==)>(sv: Service<P>, env: nat -> Moment, i: nat, items: seq<AuthRequest>,
                              error: Option<CodecError>): Session
    decreases |items|
  {
    if items == [] then
      match error
      case None => Session([], Closed)
      case Some(e) => Malformed(sv, env(i).linkUp, e)
    else if Answered(sv, env(i), items[0]) then
      Prepend([ReplyTo(sv, env(i), items[0])], Serve(sv, env, i + 1, items[1..], error))
    else Session([], Silence(sv, env(i), items[0]))
  }

  /** The session over all the bytes a peer sends. */
  function ServeBytes<P(!new, ==)>(sv: Service<P>, env: nat -> Moment, i: nat, bytes: seq<byte>): Session {
    var s := AtEof(Drain(MAX_FRAME_SIZE, RequestReader(sv.utf8), bytes));
    Serve(sv, env, i, s.items, s.error)
  }

  lemma ServeNext<P(!new)>(sv: Service<P>, env: nat -> Moment, i: nat, bytes: seq<byte>)
    ensures var (msg, rest) := NextOf(MAX_FRAME_SIZE, RequestReader(sv.utf8), bytes);
            ServeBytes(sv, env, i, bytes) ==
              match msg
              case NeedMore => Session([], Closed)
              case Error(e) => Malformed(sv, env(i).linkUp, e)
              case Item(q) =>
                if Answered(sv, env(i), q)
                then Prepend([ReplyTo(sv, env(i), q)], ServeBytes(sv, env, i + 1, rest))
                else Session([], Silence(sv, env(i), q))
  {
    var (msg, rest) := DecodeStep(MAX_FRAME_SIZE, RequestReader(sv.utf8), bytes);
    if msg.Item? {
      var t := Drain(MAX_FRAME_SIZE, RequestReader(sv.utf8), rest);
      assert ([msg.value] + t.items)[1..] == t.items;
    }
  }

  /** How many of a connection's requests were taken up. */
  function TakenUp(s: Session, requests: nat): nat {
    match s.ending
    case Closed => requests
    case DecodeFailed(_) => requests
    case _ => |s.sent| + 1
  }

  /** Serving requests leaves the registry as the last of them met it, and the cache as the gate
      leaves it on that one; without requests nothing is touched. */
  predicate SharedLeft<P(!new, ==)>(sv: Service<P>, env: nat -> Moment, taken: seq<AuthRequest>,
                                    registry0: Registry, cache0: Cache, registry: Registry, cache: Cache) {
    if taken == [] then registry == registry0 && cache == cache0
    else
      var n := |taken| - 1;
      registry == env(n).scene.registry && cache == TcpDecide(sv, env(n).scene, taken[n]).0
  }

  lemma NothingTaken<P(!new)>(sv: Service<P>, env: nat -> Moment, registry: Registry, cache: Cache)
    ensures SharedLeft(sv, env, [], registry, cache, registry, cache)
  {
  }

  lemma SharedStep<P(!new)>(sv: Service<P>, env: nat -> Moment, taken: seq<AuthRequest>, q: AuthRequest,
                            registry0: Registry, cache0: Cache, registry: Registry, cache: Cache)
    requires registry == env(|taken|).scene.registry && cache == TcpDecide(sv, env(|taken|).scene, q).0
    ensures SharedLeft(sv, env, taken + [q], registry0, cache0, registry, cache)
  {
    hide TcpDecide;
  }

  /** What a session leaves of the shared state: that of the requests it took up. */
  predicate LeavesShared<P(!new, ==)>(sv: Service<P>, env: nat -> Moment, items: seq<AuthRequest>, s: Session,
                                      registry0: Registry, cache0: Cache, registry: Registry, cache: Cache) {
    && TakenUp(s, |items|) <= |items|
    && SharedLeft(sv, env, items[..TakenUp(s, |items|)], registry0, cache0, registry, cache)
  }

  /** The requests of a connection are those taken so far and those in the bytes to come. */
  predicate Split(utf8: Text -> bool, items: seq<AuthRequest>, taken: seq<AuthRequest>, bytes: seq<byte>) {
    items == taken + Drain(MAX_FRAME_SIZE, RequestReader(utf8), bytes).items
  }

  /** Taking the next message off the bytes. */
  lemma SplitNext(utf8: Text -> bool, items: seq<AuthRequest>, taken: seq<AuthRequest>, bytes: seq<byte>)
    requires Split(utf8, items, taken, bytes)
    ensures var (msg, rest) := NextOf(MAX_FRAME_SIZE, RequestReader(utf8), bytes);
            if msg.Item? then Split(utf8, items, taken + [msg.value], rest) else items == taken
  {
    hide DecodeStep;
    var (msg, rest) := DecodeStep(MAX_FRAME_SIZE, RequestReader(utf8), bytes);
    if msg.Item? {
      var later := Drain(MAX_FRAME_SIZE, RequestReader(utf8), rest).items;
      assert taken + ([msg.value] + later) == taken + [msg.value] + later;
    }
  }

  lemma SplitStart(utf8: Text -> bool, bytes: seq<byte>)
    ensures Split(utf8, Drain(MAX_FRAME_SIZE, RequestReader(utf8), bytes).items, [], bytes)
  {
    hide Drain;
    var items := Drain(MAX_FRAME_SIZE, RequestReader(utf8), bytes).items;
    assert [] + items == items;
  }

  lemma LeavesAll<P(!new)>(sv: Service<P>, env: nat -> Moment, items: seq<AuthRequest>, s: Session,
                           registry0: Registry, cache0: Cache, registry: Registry, cache: Cache)
    requires s.ending.Closed? || s.ending.DecodeFailed?
    requires SharedLeft(sv, env, items, registry0, cache0, registry, cache)
    ensures LeavesShared(sv, env, items, s, registry0, cache0, registry, cache)
  {
    hide SharedLeft;
    assert items[..|items|] == items;
  }

  lemma LeavesSome<P(!new)>(sv: Service<P>, env: nat -> Moment, items: seq<AuthRequest>, taken: seq<AuthRequest>,
                            bytes: seq<byte>, s: Session,
                            registry0: Registry, cache0: Cache, registry: Registry, cache: Cache)
    requires Split(sv.utf8, items, taken, bytes) && |taken| == |s.sent| + 1
    requires s.ending.TaskPanicked? || s.ending.SendFailed?
    requires SharedLeft(sv, env, taken, registry0, cache0, registry, cache)
    ensures LeavesShared(sv, env, items, s, registry0, cache0, registry, cache)
  {
    hide SharedLeft, Drain;
    assert items[..|taken|] == taken;
  }

  // ----- A connection on its course -----

  /** What was sent so far, and what the bytes to come still bring, is the whole session; the requests
      taken so far are behind the shared state as it stands. */
  predicate OnCourse<P(!new, ==)>(sv: Service<P>, env: nat -> Moment, items: seq<AuthRequest>, total: Session,
                                  sent: seq<AuthResponse>, taken: seq<AuthRequest>, bytes: seq<byte>,
                                  registry0: Registry, cache0: Cache, registry: Registry, cache: Cache) {
    && total == Prepend(sent, ServeBytes(sv, env, |sent|, bytes))
    && |taken| == |sent| && Split(sv.utf8, items, taken, bytes)
    && SharedLeft(sv, env, taken, registry0, cache0, registry, cache)
  }

  lemma CourseStarts<P(!new)>(sv: Service<P>, env: nat -> Moment, bytes: seq<byte>, registry: Registry, cache: Cache)
    ensures OnCourse(sv, env, Drain(MAX_FRAME_SIZE, RequestReader(sv.utf8), bytes).items, ServeBytes(sv, env, 0, bytes),
                     [], [], bytes, registry, cache, registry, cache)
  {
    hide Drain, ServeBytes, SharedLeft, Split;
    PrependNothing(ServeBytes(sv, env, 0, bytes));
    SplitStart(sv.utf8, bytes);
    NothingTaken(sv, env, registry, cache);
  }

  lemma CourseEnds<P(!new)>(sv: Service<P>, env: nat -> Moment, items: seq<AuthRequest>, total: Session,
                            sent: seq<AuthResponse>, taken: seq<AuthRequest>, bytes: seq<byte>,
                            registry0: Registry, cache0: Cache, registry: Registry, cache: Cache)
    requires OnCourse(sv, env, items, total, sent, taken, bytes, registry0, cache0, registry, cache)
    requires NextOf(MAX_FRAME_SIZE, RequestReader(sv.utf8), bytes).0.NeedMore?
    ensures total == Session(sent, Closed)
    ensures LeavesShared(sv, env, items, total, registry0, cache0, registry, cache)
  {
    hide ServeBytes, SharedLeft, Split, NextOf, LeavesShared, Malformed, Answered, ReplyTo, Silence;
    Continues(sv, env, |sent|, bytes, sent, total);
    SplitNext(sv.utf8, items, taken, bytes);
    LeavesAll(sv, env, items, total, registry0, cache0, registry, cache);
  }

  lemma CourseFails<P(!new)>(sv: Service<P>, env: nat -> Moment, items: seq<AuthRequest>, total: Session,
                             sent: seq<AuthResponse>, taken: seq<AuthRequest>, bytes: seq<byte>, e: CodecError,
                             registry0: Registry, cache0: Cache, registry: Registry, cache: Cache)
    requires OnCourse(sv, env, items, total, sent, taken, bytes, registry0, cache0, registry, cache)
    requires NextOf(MAX_FRAME_SIZE, RequestReader(sv.utf8), bytes).0 == Error(e)
    ensures total == Prepend(sent, Malformed(sv, env(|sent|).linkUp, e))
    ensures LeavesShared(sv, env, items, total, registry0, cache0, registry, cache)
  {
    hide ServeBytes, SharedLeft, Split, NextOf, LeavesShared, Answered, ReplyTo, Silence, FitsFrame;
    Continues(sv, env, |sent|, bytes, sent, total);
    SplitNext(sv.utf8, items, taken, bytes);
    LeavesAll(sv, env, items, total, registry0, cache0, registry, cache);
  }

  lemma CourseServes<P(!new)>(sv: Service<P>, env: nat -> Moment, items: seq<AuthRequest>, total: Session,
                              sent: seq<AuthResponse>, taken: seq<AuthRequest>, bytes: seq<byte>,
                              q: AuthRequest, rest: seq<byte>, registry0: Registry, cache0: Cache,
                              before: Registry, cache: Cache, after: Registry, cache': Cache)
    requires OnCourse(sv, env, items, total, sent, taken, bytes, registry0, cache0, before, cache)
    requires NextOf(MAX_FRAME_SIZE, RequestReader(sv.utf8), bytes) == (Item(q), rest)
    requires after == env(|sent|).scene.registry && cache' == TcpDecide(sv, env(|sent|).scene, q).0
    ensures if Answered(sv, env(|sent|), q) then
              OnCourse(sv, env, items, total, sent + [ReplyTo(sv, env(|sent|), q)], taken + [q], rest,
                       registry0, cache0, after, cache')
            else
              && total == Session(sent, Silence(sv, env(|sent|), q))
              && LeavesShared(sv, env, items, total, registry0, cache0, after, cache')
  {
    hide ServeBytes, SharedLeft, Split, NextOf, LeavesShared, Malformed, Answered, ReplyTo, TcpDecide, Prepend;
    Continues(sv, env, |sent|, bytes, sent, total);
    SplitNext(sv.utf8, items, taken, bytes);
    SharedStep(sv, env, taken, q, registry0, cache0, after, cache');
    if !Answered(sv, env(|sent|), q) {
      LeavesSome(sv, env, items, taken + [q], rest, total, registry0, cache0, after, cache');
    }
  }

  class BankServer<P(!new, ==)> {
    const sv: Service<P>
    const protector: ReplayProtector
    var registry: Registry

    constructor (sv: Service<P>, protector: ReplayProtector, registry: Registry)
      requires protector.maxDriftSecs == sv.drift
      ensures this.sv == sv && this.protector == protector && this.registry == registry && Valid()
    {
      this.sv, this.protector, this.registry := sv, protector, registry;
    }

    predicate Valid() {
      protector.maxDriftSecs == sv.drift
    }

    /** The four stages of one request, on the shared state as it stands. */
    method HandleRequest(now: i64, fault: Option<Text>, q: AuthRequest) returns (a: Decision)
      requires Valid()
      modifies protector
      ensures (protector.seenNonces, a) == TcpDecide(sv, Scene(registry, fault, now, old(protector.seenNonces)), q)
    {
      var found := GetPublicKey(sv, registry, fault, q.userId);
      if found.Unknown? {
        return Decided(false, NotRegistered);
      }
      if found.StorageError? {
        return Decided(false, StorageFailed(found.detail));
      }
      if q.publicKey != sv.curve.toBytes(found.key) {
        return Decided(false, KeyMismatch);
      }
      var outcome := protector.CheckAndRecord(now, q.userId, q.proof);
      if outcome.Refused? {
        return Decided(false, ReplayRefused(outcome.error));
      }
      match Verify(sv.curve, found.key, q.proof)
      case Accepted => a := Decided(true, IdentityVerified);
      case Rejected => a := Decided(false, ProofMismatch);
      case Failed(e) => a := Decided(false, ProofUnreadable(e));
      case Panicked => a := Crash;
    }

    /** The other connections leave the shared state as the schedule says. */
    method Interfere(sc: Scene)
      modifies this`registry, protector
      ensures registry == sc.registry && protector.seenNonces == sc.cache
    {
      registry := sc.registry;
      protector.seenNonces := sc.cache;
    }

    method Send(codec: ZkpMessageCodec<AuthResponse, AuthRequest>, r: AuthResponse, linkUp: bool, wire: BytesMut)
      returns (ok: bool)
      requires codec.maxFrameSize == MAX_FRAME_SIZE && codec.serialize == ResponsePrinter()
      modifies wire
      ensures ok == (FitsFrame(r) && linkUp)
      ensures wire.data == old(wire.data) + if ok then Frame(PrintResponse(r)) else []
    {
      if !linkUp {
        return false;
      }
      var failure := codec.Encode(r, wire);
      ok := failure == None;
    }

    /** One decoded request, from the shared state it meets to its reply, if it gets one. */
    method ServeRequest(codec: ZkpMessageCodec<AuthResponse, AuthRequest>, q: AuthRequest, m: Moment, wire: BytesMut)
      returns (reply: Option<AuthResponse>, silence: Ending)
      requires Valid() && codec.maxFrameSize == MAX_FRAME_SIZE && codec.serialize == ResponsePrinter()
      modifies this`registry, protector, wire
      ensures reply == if Answered(sv, m, q) then Some(ReplyTo(sv, m, q)) else None
      ensures reply == None ==> silence == Silence(sv, m, q) && (silence == TaskPanicked || silence == SendFailed)
      ensures wire.data == old(wire.data) + if reply.Some? then Frame(PrintResponse(reply.value)) else []
      ensures registry == m.scene.registry && protector.seenNonces == TcpDecide(sv, m.scene, q).0
    {
      Interfere(m.scene);
      var a := HandleRequest(m.scene.now, m.scene.fault, q);
      if a.Crash? {
        return None, TaskPanicked;
      }
      var r := TcpResponse(q.userId, a);
      var ok := Send(codec, r, m.linkUp, wire);
      reply, silence := if ok then Some(r) else None, SendFailed;
    }

    /** Serves one connection: bytes arrive in chunks, replies go to the wire. What is sent and
        how the connection ends depends on the bytes alone, not on the chunks. */
    method HandleConnection(chunks: seq<seq<byte>>, env: nat -> Moment, wire: BytesMut) returns (session: Session)
      requires Valid() && wire.data == []
      modifies this`registry, protector, wire
      ensures session == ServeBytes(sv, env, 0, Concat(chunks))
      ensures wire.data == Frames(Payloads(ResponsePrinter(), session.sent))
      ensures LeavesShared(sv, env, Drain(MAX_FRAME_SIZE, RequestReader(sv.utf8), Concat(chunks)).items, session,
                           old(registry), old(protector.seenNonces), registry, protector.seenNonces)
    {
      hide Answered, ReplyTo, Silence, Malformed, Prepend, ServeBytes, NextOf, Frame, Frames, Payloads, TcpDecide,
           Drain, LeavesShared, OnCourse, RequestReader, ResponsePrinter, FitsFrame;
      var codec := new ZkpMessageCodec(MAX_FRAME_SIZE, ResponsePrinter(), RequestReader(sv.utf8));
      var framed := new Framed(codec, chunks);
      var sent, i := [], 0;
      ghost var bytes := framed.Pending();
      ghost var items := Drain(MAX_FRAME_SIZE, RequestReader(sv.utf8), bytes).items;
      ghost var total := ServeBytes(sv, env, 0, bytes);
      ghost var taken: seq<AuthRequest> := [];
      NoFrames();
      CourseStarts(sv, env, bytes, registry, protector.seenNonces);
      var msg := framed.Next();
      while !msg.NeedMore?
        invariant framed.Valid() && framed.src != wire
        invariant (msg, framed.Pending()) == NextOf(MAX_FRAME_SIZE, RequestReader(sv.utf8), bytes)
        invariant wire.data == Frames(Payloads(ResponsePrinter(), sent))
        invariant |sent| == i
        invariant OnCourse(sv, env, items, total, sent, taken, bytes,
                           old(registry), old(protector.seenNonces), registry, protector.seenNonces)
        decreases |bytes|
      {
        if msg.Error? {
          CourseFails(sv, env, items, total, sent, taken, bytes, msg.error,
                      old(registry), old(protector.seenNonces), registry, protector.seenNonces);
          session := Fail(codec, sent, msg.error, env(i).linkUp, wire);
          return;
        }
        ghost var before, cache := registry, protector.seenNonces;
        var reply, silence := ServeRequest(codec, msg.value, env(i), wire);
        CourseServes(sv, env, items, total, sent, taken, bytes, msg.value, framed.Pending(),
                     old(registry), old(protector.seenNonces), before, cache, registry, protector.seenNonces);
        if reply.None? {
          return Session(sent, silence);
        }
        taken, bytes := taken + [msg.value], framed.Pending();
        FramesSnoc(sent, reply.value);
        sent, i := sent + [reply.value], i + 1;
        msg := framed.Next();
      }
      CourseEnds(sv, env, items, total, sent, taken, bytes,
                 old(registry), old(protector.seenNonces), registry, protector.seenNonces);
      session := Session(sent, Closed);
    }

    /** The farewell after a decoding error; whether it could be sent is ignored. */
    method Fail(codec: ZkpMessageCodec<AuthResponse, AuthRequest>, sent: seq<AuthResponse>, e: CodecError,
                linkUp: bool, wire: BytesMut)
      returns (session: Session)
      requires codec.maxFrameSize == MAX_FRAME_SIZE && codec.serialize == ResponsePrinter()
      requires wire.data == Frames(Payloads(ResponsePrinter(), sent))
      modifies wire
      ensures session == Prepend(sent, Malformed(sv, linkUp, e)) && session.ending == DecodeFailed(e)
      ensures wire.data == Frames(Payloads(ResponsePrinter(), session.sent))
    {
      var r := MalformedResponse(sv, e);
      var ok := Send(codec, r, linkUp, wire);
      FramesSnoc(sent, r);
      assert sent + [] == sent;
      session := Session(if ok then sent + [r] else sent, DecodeFailed(e));
    }
  }

  lemma PrependNothing(s: Session)
    ensures Prepend([], s) == s
  {
  }

  /** What is left of a session after the replies already sent, by the next message. */
  lemma Continues<P(!new)>(sv: Service<P>, env: nat -> Moment, i: nat, bytes: seq<byte>,
                           sent: seq<AuthResponse>, total: Session)
    requires total == Prepend(sent, ServeBytes(sv, env, i, bytes))
    ensures var (msg, rest) := NextOf(MAX_FRAME_SIZE, RequestReader(sv.utf8), bytes);
            match msg
            case NeedMore => total == Session(sent, Closed)
            case Error(e) => total == Prepend(sent, Malformed(sv, env(i).linkUp, e))
            case Item(q) =>
              if Answered(sv, env(i), q)
              then total == Prepend(sent + [ReplyTo(sv, env(i), q)], ServeBytes(sv, env, i + 1, rest))
              else total == Session(sent, Silence(sv, env(i), q))
  {
    hide Answered, ReplyTo, Silence, Malformed, ServeBytes, NextOf;
    ServeNext(sv, env, i, bytes);
    assert sent + [] == sent;
    var (msg, rest) := NextOf(MAX_FRAME_SIZE, RequestReader(sv.utf8), bytes);
    if msg.Item? && Answered(sv, env(i), msg.value) {
      PrependTwice(sent, ReplyTo(sv, env(i), msg.value), ServeBytes(sv, env, i + 1, rest));
    }
  }

  lemma NoFrames()
    ensures Frames(Payloads(ResponsePrinter(), [])) == []
  {
  }

  lemma PrependTwice(sent: seq<AuthResponse>, r: AuthResponse, s: Session)
    ensures Prepend(sent, Prepend([r], s)) == Prepend(sent + [r], s)
  {
    assert sent + ([r] + s.sent) == sent + [r] + s.sent;
  }

  lemma FramesSnoc(sent: seq<AuthResponse>, r: AuthResponse)
    ensures Frames(Payloads(ResponsePrinter(), sent + [r])) ==
            Frames(Payloads(ResponsePrinter(), sent)) + Frame(PrintResponse(r))
  {
    var payloads := Payloads(ResponsePrinter(), sent);
    assert Payloads(ResponsePrinter(), sent + [r]) == payloads + [PrintResponse(r)];
    FramesAppend(payloads, [PrintResponse(r)]);
    FramesCons(PrintResponse(r), [], []);
    assert Frames([PrintResponse(r)]) == Frame(PrintResponse(r));
  }

  // ----- One response per request -----

  /** The first k requests were answered, the k-th was not or there was none. */
  predicate AnsweredUpTo<P(!new, ==)>(sv: Service<P>, env: nat -> Moment, items: seq<AuthRequest>, k: nat) {
    && k <= |items|
    && (forall j :: 0 <= j < k ==> Answered(sv, env(j), items[j]))
    && (k < |items| ==> !Answered(sv, env(k), items[k]))
  }

  function Replies<P(!new, ==)>(sv: Service<P>, env: nat -> Moment, items: seq<AuthRequest>, k: nat): seq<AuthResponse>
    requires k <= |items| && forall j :: 0 <= j < k ==> Answered(sv, env(j), items[j])
  {
    seq(k, j requires 0 <= j < k => ReplyTo(sv, env(j), items[j]))
  }

  lemma {:induction false} ServeAnswered<P(!new)>(sv: Service<P>, env: nat -> Moment, items: seq<AuthRequest>,
                                                  error: Option<CodecError>, k: nat)
    requires k <= |items| && forall j :: 0 <= j < k ==> Answered(sv, env(j), items[j])
    ensures Serve(sv, env, 0, items, error) ==
              Prepend(Replies(sv, env, items, k), Serve(sv, env, k, items[k..], error))
  {
    hide Answered, ReplyTo, Silence, Malformed;
    if k == 0 {
      assert items[0..] == items;
    } else {
      ServeAnswered(sv, env, items, error, k - 1);
      ServeOne(sv, env, items, error, k - 1);
      RepliesSnoc(sv, env, items, k);
      var r := ReplyTo(sv, env(k - 1), items[k - 1]);
      PrependTwice(Replies(sv, env, items, k - 1), r, Serve(sv, env, k, items[k..], error));
    }
  }

  lemma ServeOne<P(!new)>(sv: Service<P>, env: nat -> Moment, items: seq<AuthRequest>, error: Option<CodecError>,
                          k: nat)
    requires k < |items| && Answered(sv, env(k), items[k])
    ensures Serve(sv, env, k, items[k..], error) ==
              Prepend([ReplyTo(sv, env(k), items[k])], Serve(sv, env, k + 1, items[k + 1..], error))
  {
    assert items[k..][0] == items[k] && items[k..][1..] == items[k + 1..];
  }

  lemma RepliesSnoc<P(!new)>(sv: Service<P>, env: nat -> Moment, items: seq<AuthRequest>, k: nat)
    requires 0 < k <= |items| && forall j :: 0 <= j < k ==> Answered(sv, env(j), items[j])
    ensures Replies(sv, env, items, k) == Replies(sv, env, items, k - 1) + [ReplyTo(sv, env(k - 1), items[k - 1])]
  {
    hide Answered, ReplyTo;
  }

  /** The replies of a session are those to the requests up to the first unanswered one, one
      each and in order, under the names they came with; a session that answered all of them
      ends with the stream, after the farewell if that broke off. */
  lemma OneReplyPerRequest<P(!new)>(sv: Service<P>, env: nat -> Moment, items: seq<AuthRequest>,
                                    error: Option<CodecError>, k: nat)
    requires AnsweredUpTo(sv, env, items, k)
    ensures var s, replies := Serve(sv, env, 0, items, error), Replies(sv, env, items, k);
            && |replies| == k
            && (forall j :: 0 <= j < k ==> replies[j].userId == items[j].userId)
            && (if k < |items| then s == Session(replies, Silence(sv, env(k), items[k]))
                else match error
                     case None => s == Session(replies, Closed)
                     case Some(e) => s == Prepend(replies, Malformed(sv, env(k).linkUp, e)))
  {
    ServeAnswered(sv, env, items, error, k);
    var replies := Replies(sv, env, items, k);
    assert replies + [] == replies;
  }

  /** A name of up to 32,730 bytes always gets a reply that fits (a storage fault with a long
      text aside); an unregistered user's longer name never does. */
  lemma ReplyFits<P(!new)>(sv: Service<P>, sc: Scene, q: AuthRequest)
    requires var found := GetPublicKey(sv, sc.registry, sc.fault, q.userId);
             found.StorageError? ==> |found.detail| <= 32_000
    ensures var a := TcpDecide(sv, sc, q).1;
            && (a.Decided? && |q.userId| <= 32_730 ==> FitsFrame(TcpResponse(q.userId, a)))
            && (a.Decided? && a.reason == NotRegistered ==>
                  (FitsFrame(TcpResponse(q.userId, a)) <==> |q.userId| <= 32_730))
  {
    var a := TcpDecide(sv, sc, q).1;
    if a.Decided? { TcpTextLength(q.userId, a.reason); }
  }

  /** What can be checked before a request is served: the link is up, its name is short enough,
      the store answers, and its proof does not make verification panic under the stored key. */
  predicate Answerable<P(!new, ==)>(sv: Service<P>, m: Moment, q: AuthRequest) {
    var found := GetPublicKey(sv, m.scene.registry, m.scene.fault, q.userId);
    && m.linkUp && |q.userId| <= 32_730
    && !found.StorageError? && (found.Registered? ==> !VerifyPanics(sv.curve, found.key, q.proof))
  }

  /** With a short enough name and a store that answers, a request goes unanswered exactly when
      the link is down or a fresh proof makes verification panic. */
  lemma AnsweredExactly<P(!new)>(sv: Service<P>, m: Moment, q: AuthRequest)
    requires |q.userId| <= 32_730 && !GetPublicKey(sv, m.scene.registry, m.scene.fault, q.userId).StorageError?
    ensures Answered(sv, m, q) <==>
            && m.linkUp
            && !(&& Identified(sv, m.scene, q)
                 && Check(sv.drift, m.scene.cache, m.scene.now, q.userId, q.proof).1 == Fresh
                 && VerifyPanics(sv.curve, GetPublicKey(sv, m.scene.registry, m.scene.fault, q.userId).key, q.proof))
  {
    hide FitsFrame, TcpDecide, GetPublicKey, VerifyPanics, Check, TcpResponse;
    CrashExactly(sv, m.scene, q);
    ReplyFits(sv, m.scene, q);
  }

  lemma AnswerableIsAnswered<P(!new)>(sv: Service<P>, m: Moment, q: AuthRequest)
    requires Answerable(sv, m, q)
    ensures Answered(sv, m, q)
  {
    hide GetPublicKey, VerifyPanics, Check, Answered;
    AnsweredExactly(sv, m, q);
  }

  /** One response per request. However the bytes of a connection are cut up and whatever the
      other connections do, when every request in them is answerable the replies are one per
      request, in order and under its name, each the gate's decision, and after them at most the
      farewell to a stream that broke off. */
  lemma EveryRequestAnswered<P(!new)>(sv: Service<P>, env: nat -> Moment, chunks: seq<seq<byte>>)
    requires var items := Drain(MAX_FRAME_SIZE, RequestReader(sv.utf8), Concat(chunks)).items;
             forall j :: 0 <= j < |items| ==> Answerable(sv, env(j), items[j])
    ensures var stream := AtEof(Drain(MAX_FRAME_SIZE, RequestReader(sv.utf8), Concat(chunks)));
            var items, s := stream.items, ServeBytes(sv, env, 0, Concat(chunks));
            && |items| <= |s.sent| <= |items| + 1
            && (forall j :: 0 <= j < |items| ==>
                  TcpDecide(sv, env(j).scene, items[j]).1.Decided? &&
                  s.sent[j] == TcpResponse(items[j].userId, TcpDecide(sv, env(j).scene, items[j]).1) &&
                  s.sent[j].userId == items[j].userId)
            && match stream.error
               case None => |s.sent| == |items| && s.ending == Closed
               case Some(e) =>
                 && s.ending == DecodeFailed(e)
                 && var farewell := MalformedResponse(sv, e);
                    s.sent[|items|..] == if FitsFrame(farewell) && env(|items|).linkUp then [farewell] else []
  {
    hide Answerable, TcpDecide, Drain, FitsFrame;
    var stream := AtEof(Drain(MAX_FRAME_SIZE, RequestReader(sv.utf8), Concat(chunks)));
    forall j | 0 <= j < |stream.items| ensures Answered(sv, env(j), stream.items[j]) {
      AnswerableIsAnswered(sv, env(j), stream.items[j]);
    }
    OneReplyPerRequest(sv, env, stream.items, stream.error, |stream.items|);
  }

  // ----- What the client of a session is told -----

  lemma FirstUnanswered<P(!new)>(sv: Service<P>, env: nat -> Moment, items: seq<AuthRequest>) returns (k: nat)
    ensures AnsweredUpTo(sv, env, items, k)
  {
    hide Answered;
    k := 0;
    while k < |items| && Answered(sv, env(k), items[k])
      invariant k <= |items| && forall j :: 0 <= j < k ==> Answered(sv, env(j), items[j])
    {
      k := k + 1;
    }
  }

  lemma ReplyIsTrue<P(!new)>(sv: Service<P>, m: Moment, q: AuthRequest)
    requires SaneClock(sv.drift, m.scene.now) && Answered(sv, m, q)
    ensures ReplyTo(sv, m, q).userId == q.userId && (ReplyTo(sv, m, q).success <==> Deserves(sv, m.scene, q))
  {
    hide TcpDecide, Deserves, TcpText;
    TcpReplyExactly(sv, m.scene, q);
  }

  lemma SilenceExactly<P(!new)>(sv: Service<P>, m: Moment, q: AuthRequest)
    ensures Silence(sv, m, q) == if Panics(sv, m.scene, q) then TaskPanicked else SendFailed
  {
    hide TcpDecide, Check, VerifyPanics, Identified;
    CrashExactly(sv, m.scene, q);
  }

  /** Replies are true. However bytes are cut up and whatever happens meanwhile, the first k
      replies of a connection go to the users of its requests, in order, and say yes exactly to
      those who deserve it. Then either the next request made the task panic or could not be
      answered, or the peer closed the stream between frames, or the stream broke off and at most
      a farewell follows that lets nobody in. */
  lemma RepliesAreTrue<P(!new)>(sv: Service<P>, env: nat -> Moment, chunks: seq<seq<byte>>) returns (k: nat)
    requires forall j: nat :: SaneClock(sv.drift, env(j).scene.now)
    ensures var stream := Drain(MAX_FRAME_SIZE, RequestReader(sv.utf8), Concat(chunks));
            var s := ServeBytes(sv, env, 0, Concat(chunks));
            && k <= |stream.items| && k <= |s.sent|
            && (forall j :: 0 <= j < k ==>
                  && s.sent[j].userId == stream.items[j].userId
                  && (s.sent[j].success <==> Deserves(sv, env(j).scene, stream.items[j])))
            && if k < |stream.items| then
                 && |s.sent| == k
                 && s.ending == if Panics(sv, env(k).scene, stream.items[k]) then TaskPanicked else SendFailed
               else if stream.error == None && stream.rest == [] then |s.sent| == k && s.ending == Closed
               else
                 var e := if stream.error.Some? then stream.error.value else BytesRemaining;
                 && s.ending == DecodeFailed(e)
                 && var text := Ascii("Malformed packet: ") + sv.codecText(e);
                    s.sent[k..] <= [AuthResponse(Ascii("unknown"), false, text)]
  {
    hide Answered, ReplyTo, Silence, Deserves, Panics, Drain, Serve, Ascii, FitsFrame;
    var bytes := Concat(chunks);
    var stream := AtEof(Drain(MAX_FRAME_SIZE, RequestReader(sv.utf8), bytes));
    k := FirstUnanswered(sv, env, stream.items);
    OneReplyPerRequest(sv, env, stream.items, stream.error, k);
    forall j | 0 <= j < k
      ensures ReplyTo(sv, env(j), stream.items[j]).userId == stream.items[j].userId
      ensures ReplyTo(sv, env(j), stream.items[j]).success <==> Deserves(sv, env(j).scene, stream.items[j])
    {
      ReplyIsTrue(sv, env(j), stream.items[j]);
    }
    if k < |stream.items| { SilenceExactly(sv, env(k), stream.items[k]); }
  }

  // ----- Both directions of a connection -----

  /** Requests framed by a client reach the server as they were, however the bytes are cut. */
  lemma RequestsArrive(utf8: Text -> bool, items: seq<AuthRequest>, chunks: seq<seq<byte>>)
    requires forall q :: q in items ==> RequestFits(utf8, q) && |PrintRequest(q)| <= MAX_FRAME_SIZE
    requires Concat(chunks) == Frames(Payloads(RequestPrinter(), items))
    ensures Feed(MAX_FRAME_SIZE, RequestReader(utf8), chunks) == Stream(items, None, [])
  {
    forall i | 0 <= i < |items| ensures Sendable(MAX_FRAME_SIZE, RequestPrinter(), RequestReader(utf8), items[i]) {
      assert items[i] in items;
      DeserializeExact(utf8, PrintRequest(items[i]), items[i]);
    }
    StreamRoundTrip(MAX_FRAME_SIZE, RequestPrinter(), RequestReader(utf8), items, chunks);
  }

  /** The replies the server put on the wire reach the client as they were. */
  lemma RepliesArrive(utf8: Text -> bool, sent: seq<AuthResponse>, chunks: seq<seq<byte>>)
    requires forall r :: r in sent ==> ResponseFits(utf8, r) && FitsFrame(r)
    requires Concat(chunks) == Frames(Payloads(ResponsePrinter(), sent))
    ensures Feed(MAX_FRAME_SIZE, ResponseReader(utf8), chunks) == Stream(sent, None, [])
  {
    forall i | 0 <= i < |sent| ensures Sendable(MAX_FRAME_SIZE, ResponsePrinter(), ResponseReader(utf8), sent[i]) {
      assert sent[i] in sent;
      assert PrintResponse(sent[i]) == PrintResponse(sent[i]) + [];
      ResponseExact(utf8, PrintResponse(sent[i]), sent[i], []);
    }
    StreamRoundTrip(MAX_FRAME_SIZE, ResponsePrinter(), ResponseReader(utf8), sent, chunks);
  }

  // ----- Requests the 32-bit header cannot hold -----

  /** An encoded request reads back, leaving what follows it, exactly when its print is shorter
      than 2^32 bytes; a frame limit alone does not promise that. */
  lemma RequestReadsBackExactly(utf8: Text -> bool, max: nat, q: AuthRequest, tail: seq<byte>)
    requires RequestFits(utf8, q) && |PrintRequest(q)| <= max
    ensures DecodeStep(max, RequestReader(utf8), EncodeStep(max, PrintRequest(q)).value + tail) == (Item(q), tail) <==>
            |PrintRequest(q)| < TWO_32
  {
    DeserializeExact(utf8, PrintRequest(q), q);
    RoundTripExact(max, RequestReader(utf8), PrintRequest(q), q, tail);
  }

  /** A request whose print is 2^32 bytes long. */
  function OverlongRequest(): AuthRequest {
    AuthRequest([], seq(TWO_32 - 56, _ => 0), Proof([], [], 0, seq(16, _ => 0)))
  }

  /** Under a frame limit of 2^32 it is encoded without complaint and does not read back. */
  lemma OverlongRequestFails(utf8: Text -> bool, tail: seq<byte>)
    requires utf8([])
    ensures RequestFits(utf8, OverlongRequest()) && |PrintRequest(OverlongRequest())| == TWO_32
    ensures EncodeStep(TWO_32, PrintRequest(OverlongRequest())).Some?
    ensures DecodeStep(TWO_32, RequestReader(utf8), EncodeStep(TWO_32, PrintRequest(OverlongRequest())).value + tail) !=
              (Item(OverlongRequest()), tail)
  {
    RequestReadsBackExactly(utf8, TWO_32, OverlongRequest(), tail);
  }

  // ----- An honest client, end to end -----

  /** However the network cuts up its one framed request, an honest client whose key is enrolled
      and whose clock and nonce are good gets exactly one reply, and it is a success. */
  lemma HonestClientServed<P(!new)>(sv: Service<P>, env: nat -> Moment, user: Text, x: nat, y: P, k: nat, r: P,
                                    timestamp: i64, nonce: Nonce, q: AuthRequest, chunks: seq<seq<byte>>)
    requires sv.curve.Valid() && 0 < x < sv.curve.group.order && 0 < k < sv.curve.group.order
    requires y == sv.curve.group.Mul(x, sv.curve.group.gen) && r == sv.curve.group.Mul(k, sv.curve.group.gen)
    requires ReadyFor(sv, env(0).scene, user, y, timestamp, nonce)
    requires env(0).linkUp && sv.utf8(user) && |user| <= 32_738
    requires HonestRequest(sv.curve, user, x, k, timestamp, nonce) == Some(q)
    requires Concat(chunks) == Frame(PrintRequest(q))
    ensures ServeBytes(sv, env, 0, Concat(chunks)) ==
              Session([AuthResponse(user, true, TcpText(user, IdentityVerified))], Closed)
  {
    hide TcpDecide, Challenge, HonestRequest, TcpText, ReadyFor, ServeBytes, PrintRequest, ProofFits;
    RequestHasChallenge(sv.curve, user, x, y, k, r, timestamp, nonce, q);
    HonestClientAdmitted(sv, env(0).scene, user, x, y, k, r, timestamp, nonce);
    SuccessFits(sv, env(0), q);
    HonestRequestSize(sv.curve, user, x, k, timestamp, nonce, q);
    SingleServed(sv, env, q, chunks);
  }

  lemma RequestHasChallenge<P(!new)>(c: Curve<P>, user: Text, x: nat, y: P, k: nat, r: P, timestamp: i64, nonce: Nonce,
                                     q: AuthRequest)
    requires c.group.order > 0 && y == c.group.Mul(x, c.group.gen) && r == c.group.Mul(k, c.group.gen)
    requires HonestRequest(c, user, x, k, timestamp, nonce) == Some(q)
    ensures Challenge(c, r, y, timestamp, nonce) != None && q.userId == user
  {
    hide Challenge;
  }

  lemma SuccessFits<P(!new)>(sv: Service<P>, m: Moment, q: AuthRequest)
    requires TcpDecide(sv, m.scene, q).1 == Decided(true, IdentityVerified) && m.linkUp && |q.userId| <= 32_738
    ensures Answered(sv, m, q)
    ensures ReplyTo(sv, m, q) == AuthResponse(q.userId, true, TcpText(q.userId, IdentityVerified))
  {
    hide TcpDecide, TcpText;
    TcpTextLength(q.userId, IdentityVerified);
  }

  /** A single framed request that is answered is all a session contains, however it is cut up. */
  lemma SingleServed<P(!new)>(sv: Service<P>, env: nat -> Moment, q: AuthRequest, chunks: seq<seq<byte>>)
    requires Answered(sv, env(0), q) && RequestFits(sv.utf8, q) && |PrintRequest(q)| <= MAX_FRAME_SIZE
    requires Concat(chunks) == Frame(PrintRequest(q))
    ensures ServeBytes(sv, env, 0, Concat(chunks)) == Session([ReplyTo(sv, env(0), q)], Closed)
  {
    hide Answered, ReplyTo, Drain, Serve, RequestFits, PrintRequest, Frame;
    DeserializeExact(sv.utf8, PrintRequest(q), q);
    DrainSingle(MAX_FRAME_SIZE, RequestReader(sv.utf8), PrintRequest(q), q);
    OneReplyPerRequest(sv, env, [q], None, 1);
  }

  /** An honest request prints to 154 bytes and the name. */
  lemma HonestRequestSize<P(!new)>(c: Curve<P>, user: Text, x: nat, k: nat, timestamp: i64, nonce: Nonce,
                                   q: AuthRequest)
    requires c.Valid() && HonestRequest(c, user, x, k, timestamp, nonce) == Some(q)
    ensures |PrintRequest(q)| == 154 + |user| && ProofFits(q.proof) && |q.publicKey| == 33
  {
    assert c.PointBytesAt(c.group.Mul(x, c.group.gen));
    assert c.PointBytesAt(c.group.Mul(k, c.group.gen));
  }
}
