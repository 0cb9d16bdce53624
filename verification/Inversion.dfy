/** What a late clock reading costs the whole service: a run in which one proof is let in twice. */
module Inversion {
  import opened Bytes
  import opened Protocol
  import opened Replay
  import opened Schnorr
  import opened Messages
  import opened Gate
  import opened Interleaving

  /** The request names the key its user is enrolled with. */
  predicate Enrolled<P(!new, ==)>(sv: Service<P>, registry: Registry, q: AuthRequest, pk: P) {
    GetPublicKey(sv, registry, None, q.userId) == Registered(pk) && q.publicKey == sv.curve.toBytes(pk)
  }

  // ----- The steps of a run that goes well -----

  lemma NamedStep<P(!new)>(sv: Service<P>, s: State<P>, task: nat, q: AuthRequest, pk: P)
    requires PhaseOf(s, task).Idle? && Enrolled(sv, s.registry, q, pk)
    ensures Step(sv, s, LookUp(task, q, None)) == Move(s, task, Named(q, pk, s.time)).(time := s.time + 1)
  {
    hide GetPublicKey;
  }

  lemma TimelyStep<P(!new)>(sv: Service<P>, s: State<P>, task: nat, q: AuthRequest, pk: P, a: nat, now: i64)
    requires PhaseOf(s, task) == Named(q, pk, a) && WindowError(sv.drift, now, q.proof.timestamp) == None
    ensures Step(sv, s, ReadClock(task, now)) == Move(s, task, Timely(q, pk, a, s.time, now)).(time := s.time + 1)
  {
    hide WindowError;
  }

  lemma RecordedStep<P(!new)>(sv: Service<P>, s: State<P>, task: nat, q: AuthRequest, pk: P, a: nat, b: nat, now: i64)
    requires PhaseOf(s, task) == Timely(q, pk, a, b, now)
    requires s.cache == CacheAfter(sv.drift, s.history) && Accepts(sv.drift, s.history, CallOf(q, now))
    ensures var h := s.history + [CallOf(q, now)];
            Step(sv, s, Enter(task)) ==
              Move(s.(cache := CacheAfter(sv.drift, h), history := h), task, Recorded(q, pk, a, b, s.time))
                .(time := s.time + 1)
  {
    hide Section;
    assert (s.history + [CallOf(q, now)])[..|s.history|] == s.history;
  }

  lemma GrantedStep<P(!new)>(sv: Service<P>, s: State<P>, task: nat, q: AuthRequest, pk: P, a: nat, b: nat, c: nat)
    requires PhaseOf(s, task) == Recorded(q, pk, a, b, c) && Verify(sv.curve, pk, q.proof) == Accepted
    ensures Step(sv, s, Finish(task)) ==
              Conclude(s, task, q, Decided(true, IdentityVerified), AtFinish(a, b, c, s.time)).(time := s.time + 1)
  {
    hide Verify;
  }

  // ----- The run -----

  /** A task takes up a request and reads the clock. */
  function Arrive(task: nat, q: AuthRequest, now: i64): seq<Action> {
    [LookUp(task, q, None), ReadClock(task, now)]
  }

  lemma ExecArrive<P(!new)>(sv: Service<P>, registry: Registry, run: seq<Action>, task: nat, q: AuthRequest, pk: P,
                            now: i64)
    requires var s := Exec(sv, registry, run);
             PhaseOf(s, task).Idle? && Enrolled(sv, s.registry, q, pk)
    requires WindowError(sv.drift, now, q.proof.timestamp) == None
    ensures var s := Exec(sv, registry, run);
            Exec(sv, registry, run + Arrive(task, q, now)) ==
              Move(s, task, Timely(q, pk, s.time, s.time + 1, now)).(time := s.time + 2)
  {
    hide Exec, Step, WindowError, Enrolled;
    var s := Exec(sv, registry, run);
    var act, act' := LookUp(task, q, None), ReadClock(task, now);
    ExecSnoc(sv, registry, run, act);
    NamedStep(sv, s, task, q, pk);
    ExecSnoc(sv, registry, run + [act], act');
    TimelyStep(sv, Exec(sv, registry, run + [act]), task, q, pk, s.time, now);
    assert run + Arrive(task, q, now) == run + [act] + [act'];
    assert s.tasks[task := Named(q, pk, s.time)][task := Timely(q, pk, s.time, s.time + 1, now)] ==
           s.tasks[task := Timely(q, pk, s.time, s.time + 1, now)];
  }

  /** One task is served from start to end. */
  function Served(q: AuthRequest, now: i64): seq<Action> {
    Arrive(0, q, now) + [Enter(0), Finish(0)]
  }

  /** Then a second reads its clock, a third reads a later one and overtakes it. */
  function Overtaken(q: AuthRequest, now: i64, other: AuthRequest, ahead: i64): seq<Action> {
    Served(q, q.proof.timestamp) + Arrive(1, q, now) + Arrive(2, other, ahead) + [Enter(2), Enter(1), Finish(1)]
  }

  lemma FirstServed<P(!new)>(sv: Service<P>, registry: Registry, q: AuthRequest, pk: P, now: i64)
    requires Enrolled(sv, registry, q, pk) && Verify(sv.curve, pk, q.proof) == Accepted
    requires Entered(sv.drift, CallOf(q, now))
    ensures var h := [CallOf(q, now)];
            Exec(sv, registry, Served(q, now)) ==
              State(registry, CacheAfter(sv.drift, h), map[0 := Idle], h,
                    [Conclusion(0, q, Decided(true, IdentityVerified), AtFinish(0, 1, 2, 3))], 4)
  {
    hide Exec, Step, Enrolled, Verify, WindowError, CacheAfter, Accepts, Arrive;
    var arrived := Arrive(0, q, now);
    assert [] + arrived == arrived;
    ExecNone(sv, registry);
    ExecArrive(sv, registry, [], 0, q, pk, now);
    ExecSnoc(sv, registry, arrived, Enter(0));
    NothingRemembered(sv.drift, CallOf(q, now));
    RecordedStep(sv, Exec(sv, registry, arrived), 0, q, pk, 0, 1, now);
    ExecSnoc(sv, registry, arrived + [Enter(0)], Finish(0));
    GrantedStep(sv, Exec(sv, registry, arrived + [Enter(0)]), 0, q, pk, 0, 1, 2);
    assert Served(q, now) == arrived + [Enter(0)] + [Finish(0)];
  }

  lemma ExecNone<P(!new)>(sv: Service<P>, registry: Registry)
    ensures Exec(sv, registry, []) == State(registry, map[], map[], [], [], 0)
  {
  }

  lemma NothingRemembered(d: i64, c: Call)
    requires Entered(d, c)
    ensures Accepts(d, [], c) && CacheAfter(d, []) == map[] && [] + [c] == [c]
  {
    AnswerExact(d, [], c);
  }

  /** The overtaking section expires the proof, so that the overtaken one accepts it again. */
  lemma OvertakenAccepts(d: i64, k: Key, other: Key, ts: i64, now: i64, ahead: i64)
    requires k != other && ts <= now <= ts + d < ahead
    requires 0 <= ts && now + d < TWO_63 && ahead + d < TWO_63
    ensures var h, c := TightHistory(k, ts, ahead, other), Call(now, k, ts);
            Entered(d, h[0]) && Entered(d, h[1]) && Entered(d, c) && Accepts(d, h[..1], h[1]) && Accepts(d, h, c)
  {
    hide Section, CacheAfter, WindowError;
    var h := TightHistory(k, ts, ahead, other);
    BoundIsTight(d, now, k, other, now - ts, ahead - now);
    assert History(d, h[..1]);
    assert h[0].key != h[1].key;
    AnswerExact(d, h[..1], h[1]);
  }

  lemma BothWait<P(!new)>(sv: Service<P>, registry: Registry, q: AuthRequest, pk: P, other: AuthRequest, pk': P,
                          now: i64, ahead: i64)
    requires Enrolled(sv, registry, q, pk) && Verify(sv.curve, pk, q.proof) == Accepted
    requires Enrolled(sv, registry, other, pk')
    requires Entered(sv.drift, CallOf(q, q.proof.timestamp)) && Entered(sv.drift, CallOf(q, now))
    requires Entered(sv.drift, CallOf(other, ahead))
    ensures var h := [CallOf(q, q.proof.timestamp)];
            Exec(sv, registry, Served(q, q.proof.timestamp) + Arrive(1, q, now) + Arrive(2, other, ahead)) ==
              State(registry, CacheAfter(sv.drift, h),
                    map[0 := Idle, 1 := Timely(q, pk, 4, 5, now), 2 := Timely(other, pk', 6, 7, ahead)], h,
                    [Conclusion(0, q, Decided(true, IdentityVerified), AtFinish(0, 1, 2, 3))], 8)
  {
    hide Exec, Step, Enrolled, Verify, WindowError, CacheAfter, Served, Arrive;
    FirstServed(sv, registry, q, pk, q.proof.timestamp);
    ExecArrive(sv, registry, Served(q, q.proof.timestamp), 1, q, pk, now);
    ExecArrive(sv, registry, Served(q, q.proof.timestamp) + Arrive(1, q, now), 2, other, pk', ahead);
  }

  /** For every service, every accepted proof and every later reading inside its window, a request
      of another user or nonce that reads the clock past the proof's expiry and overtakes the
      second showing of the proof makes the service let it in twice. */
  lemma DoubleGrant<P(!new)>(sv: Service<P>, registry: Registry, q: AuthRequest, pk: P, other: AuthRequest, pk': P,
                             now: i64)
    requires Enrolled(sv, registry, q, pk) && Verify(sv.curve, pk, q.proof) == Accepted
    requires Enrolled(sv, registry, other, pk')
    requires (other.userId, other.proof.nonce) != (q.userId, q.proof.nonce)
    requires 0 <= q.proof.timestamp <= now <= q.proof.timestamp + sv.drift < other.proof.timestamp
    requires now + sv.drift < TWO_63 && other.proof.timestamp + sv.drift < TWO_63
    ensures Exec(sv, registry, Overtaken(q, now, other, other.proof.timestamp)).concluded ==
              [Conclusion(0, q, Decided(true, IdentityVerified), AtFinish(0, 1, 2, 3)),
               Conclusion(1, q, Decided(true, IdentityVerified), AtFinish(4, 5, 9, 10))]
  {
    hide Exec, Step, Enrolled, Verify, CacheAfter, Served, Arrive, Accepts, Entered;
    var ts, ahead := q.proof.timestamp, other.proof.timestamp;
    OvertakenAccepts(sv.drift, (q.userId, q.proof.nonce), (other.userId, other.proof.nonce), ts, now, ahead);
    BothWait(sv, registry, q, pk, other, pk', now, ahead);
    var run := Served(q, ts) + Arrive(1, q, now) + Arrive(2, other, ahead);
    var h := TightHistory((q.userId, q.proof.nonce), ts, ahead, (other.userId, other.proof.nonce));
    assert h[..1] == [CallOf(q, ts)] && h == [CallOf(q, ts)] + [CallOf(other, ahead)];
    ExecSnoc(sv, registry, run, Enter(2));
    RecordedStep(sv, Exec(sv, registry, run), 2, other, pk', 6, 7, ahead);
    ExecSnoc(sv, registry, run + [Enter(2)], Enter(1));
    RecordedStep(sv, Exec(sv, registry, run + [Enter(2)]), 1, q, pk, 4, 5, now);
    ExecSnoc(sv, registry, run + [Enter(2)] + [Enter(1)], Finish(1));
    GrantedStep(sv, Exec(sv, registry, run + [Enter(2)] + [Enter(1)]), 1, q, pk, 4, 5, 9);
    assert Overtaken(q, now, other, ahead) == run + [Enter(2)] + [Enter(1)] + [Finish(1)];
  }

  // ----- Such a service exists -----

  function TinyService(): Service<bool> {
    Service(TinyCurve(), 60, _ => true, [], _ => [])
  }

  function TinyRequest(user: byte, timestamp: i64): AuthRequest {
    AuthRequest([user], TinyBytes(true), Proof(TinyBytes(true), BigEndian(1, 32), timestamp, seq(16, _ => 0)))
  }

  /** Two enrolled users, one reading a second behind the other: the first is let in twice. */
  lemma DoubleGrantExists()
    ensures var registry := map[[1] := TinyBytes(true), [2] := TinyBytes(true)];
            var q, other := TinyRequest(1, 100), TinyRequest(2, 161);
            var s := Exec(TinyService(), registry, Overtaken(q, 160, other, 161));
            && |s.concluded| == 2 && s.concluded[0].q == s.concluded[1].q == q
            && s.concluded[0].decision == s.concluded[1].decision == Decided(true, IdentityVerified)
  {
    hide Exec, Verify, BigEndian;
    var registry: Registry := map[[1] := TinyBytes(true), [2] := TinyBytes(true)];
    var q, other := TinyRequest(1, 100), TinyRequest(2, 161);
    TinyAccepts(q.proof);
    DoubleGrant(TinyService(), registry, q, true, other, true, 160);
  }

  lemma TinyAccepts(p: Proof)
    requires p.rPoint == TinyBytes(true) && p.sScalar == BigEndian(1, 32)
    ensures Verify(TinyCurve(), true, p) == Accepted
  {
    hide Challenge;
    TinyChallenge(p.timestamp, p.nonce);
    ValidCurveExists();
    VerifyEncoded(TinyCurve(), true, true, 1, p.timestamp, p.nonce);
    var g := TinyCurve().group;
    assert g.Mul(1, true) == g.add(true, g.Mul(0, true));
  }

  lemma TinyChallenge(timestamp: i64, nonce: Nonce)
    ensures Challenge(TinyCurve(), true, true, timestamp, nonce) == Some(0)
  {
    hide Preimage;
    ZerosAreZero(32);
  }

  lemma {:induction false} ZerosAreZero(w: nat)
    ensures FromBigEndian(seq(w, _ => 0)) == 0
  {
    if w > 0 {
      ZerosAreZero(w - 1);
      assert seq<byte>(w, _ => 0)[..w - 1] == seq<byte>(w - 1, _ => 0);
    }
  }
}
