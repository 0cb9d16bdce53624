/** All the tasks of a service at once, whichever transport they serve. They share the registry
    and the replay cache; a task handles one request at a time in four atomic steps (look up the
    key, read the clock, enter the critical section, verify and conclude), between which the
    others take theirs and the registry may change.

    A task that panicked or whose link is down may take up further requests here, where the program
    ends it: the runs of the program are among these runs.

    A run is the sequence of steps taken. States carry, beside what the program keeps, the
    positions in the run of the steps a request has been through. */
module Interleaving {
  import opened Bytes
  import opened Protocol
  import opened Replay
  import opened Schnorr
  import opened Messages
  import opened Gate

  datatype Action =
    | SetRegistry(registry: Registry)
    | LookUp(task: nat, q: AuthRequest, fault: Option<Text>)
    | ReadClock(task: nat, now: i64)
    | Enter(task: nat)
    | Finish(task: nat)

  /** Where a task is with its request, looked up at a, timed at b, entered at c. */
  datatype Phase<+P> =
    | Idle
    | Named(q: AuthRequest, key: P, a: nat)
    | Timely(q: AuthRequest, key: P, a: nat, b: nat, now: i64)
    | Recorded(q: AuthRequest, key: P, a: nat, b: nat, c: nat)

  /** The steps behind a conclusion, the last of which drew it. */
  datatype Trail =
    | AtLookUp(a: nat)
    | AtClock(a: nat, b: nat)
    | AtEnter(a: nat, b: nat, c: nat)
    | AtFinish(a: nat, b: nat, c: nat, e: nat)
  {
    function Last(): nat {
      match this
      case AtLookUp(a) => a
      case AtClock(_, b) => b
      case AtEnter(_, _, c) => c
      case AtFinish(_, _, _, e) => e
    }
  }

  /** A reply, or the panic of the task in its place. */
  datatype Conclusion = Conclusion(task: nat, q: AuthRequest, decision: Decision, trail: Trail)

  datatype State<+P> = State(
    registry: Registry,
    cache: Cache,
    tasks: map<nat, Phase<P>>,
    history: seq<Call>,
    concluded: seq<Conclusion>,
    time: nat)

  function PhaseOf<P>(s: State<P>, task: nat): Phase<P> {
    if task in s.tasks then s.tasks[task] else Idle
  }

  function Move<P>(s: State<P>, task: nat, p: Phase<P>): State<P> {
    s.(tasks := s.tasks[task := p])
  }

  function Conclude<P>(s: State<P>, task: nat, q: AuthRequest, decision: Decision, trail: Trail): State<P> {
    Move(s.(concluded := s.concluded + [Conclusion(task, q, decision, trail)]), task, Idle)
  }

  /** Moving a task touches nothing that tasks share; concluding adds a conclusion. */
  lemma MovesOnly<P(!new)>()
    ensures forall s: State<P>, task, p :: var s' := Move(s, task, p);
              && s'.concluded == s.concluded && s'.history == s.history && s'.cache == s.cache
              && s'.registry == s.registry
    ensures forall s: State<P>, task, q, decision, trail :: var s' := Conclude(s, task, q, decision, trail);
              && s.concluded <= s'.concluded && s'.history == s.history && s'.cache == s.cache
              && s'.registry == s.registry
  {
  }

  function CallOf(q: AuthRequest, now: i64): Call {
    Call(now, (q.userId, q.proof.nonce), q.proof.timestamp)
  }

  function LookUpStep<P(!new, ==)>(sv: Service<P>, s: State<P>, task: nat, q: AuthRequest,
                                   fault: Option<Text>): State<P> {
    match GetPublicKey(sv, s.registry, fault, q.userId)
    case Unknown => Conclude(s, task, q, Decided(false, NotRegistered), AtLookUp(s.time))
    case StorageError(detail) => Conclude(s, task, q, Decided(false, StorageFailed(detail)), AtLookUp(s.time))
    case Registered(pk) =>
      if q.publicKey != sv.curve.toBytes(pk) then Conclude(s, task, q, Decided(false, KeyMismatch), AtLookUp(s.time))
      else Move(s, task, Named(q, pk, s.time))
  }

  function ClockStep<P(!new, ==)>(sv: Service<P>, s: State<P>, task: nat, now: i64, p: Phase<P>): State<P>
    requires p.Named?
  {
    match WindowError(sv.drift, now, p.q.proof.timestamp)
    case Some(e) => Conclude(s, task, p.q, Decided(false, ReplayRefused(e)), AtClock(p.a, s.time))
    case None => Move(s, task, Timely(p.q, p.key, p.a, s.time, now))
  }

  function EnterStep<P(!new, ==)>(sv: Service<P>, s: State<P>, task: nat, p: Phase<P>): State<P>
    requires p.Timely?
  {
    var (cache, accepted) := Section(sv.drift, s.cache, CallOf(p.q, p.now));
    var s' := s.(cache := cache, history := s.history + [CallOf(p.q, p.now)]);
    if accepted then Move(s', task, Recorded(p.q, p.key, p.a, p.b, s.time))
    else Conclude(s', task, p.q, Decided(false, ReplayRefused(ReplayDetected)), AtEnter(p.a, p.b, s.time))
  }

  function FinishStep<P(!new, ==)>(sv: Service<P>, s: State<P>, task: nat, p: Phase<P>): State<P>
    requires p.Recorded?
  {
    Conclude(s, task, p.q, VerifyDecision(Verify(sv.curve, p.key, p.q.proof)), AtFinish(p.a, p.b, p.c, s.time))
  }

  /** The effect of an action; one that its task cannot take now has none. */
  function Effect<P(!new, ==)>(sv: Service<P>, s: State<P>, act: Action): State<P> {
    match act
    case SetRegistry(registry) => s.(registry := registry)
    case LookUp(task, q, fault) => if PhaseOf(s, task).Idle? then LookUpStep(sv, s, task, q, fault) else s
    case ReadClock(task, now) => if PhaseOf(s, task).Named? then ClockStep(sv, s, task, now, PhaseOf(s, task)) else s
    case Enter(task) => if PhaseOf(s, task).Timely? then EnterStep(sv, s, task, PhaseOf(s, task)) else s
    case Finish(task) => if PhaseOf(s, task).Recorded? then FinishStep(sv, s, task, PhaseOf(s, task)) else s
  }

  function Step<P(!new, ==)>(sv: Service<P>, s: State<P>, act: Action): State<P> {
    Effect(sv, s, act).(time := s.time + 1)
  }

  function Exec<P(!new, ==)>(sv: Service<P>, registry: Registry, run: seq<Action>): State<P> {
    if run == [] then State(registry, map[], map[], [], [], 0)
    else Step(sv, Exec(sv, registry, run[..|run| - 1]), run[|run| - 1])
  }

  /** The state in which the k-th step of a run is taken. */
  function StateAt<P(!new, ==)>(sv: Service<P>, registry: Registry, run: seq<Action>, k: nat): State<P>
    requires k <= |run|
  {
    Exec(sv, registry, run[..k])
  }

  lemma StateAtEnd<P(!new)>(sv: Service<P>, registry: Registry, run: seq<Action>)
    ensures StateAt(sv, registry, run, |run|) == Exec(sv, registry, run)
  {
    assert run[..|run|] == run;
  }

  lemma StateAtStep<P(!new)>(sv: Service<P>, registry: Registry, run: seq<Action>, k: nat)
    requires k < |run|
    ensures StateAt(sv, registry, run, k + 1) == Step(sv, StateAt(sv, registry, run, k), run[k])
  {
    assert run[..k + 1][..k] == run[..k];
  }

  /** What was so during a run is so during every longer one. */
  lemma StateAtLonger<P(!new)>(sv: Service<P>, registry: Registry, run: seq<Action>, act: Action)
    ensures forall k: nat :: k <= |run| ==> StateAt(sv, registry, run + [act], k) == StateAt(sv, registry, run, k)
    ensures StateAt(sv, registry, run + [act], |run| + 1) == Step(sv, Exec(sv, registry, run), act)
  {
    hide Step, Exec;
    forall k: nat | k <= |run| ensures (run + [act])[..k] == run[..k] {
    }
    StateAtStep(sv, registry, run + [act], |run|);
    StateAtEnd(sv, registry, run);
  }

  // ----- The registry of a run -----

  /** No step of a task writes the registry. */
  lemma RegistryStep<P(!new)>(sv: Service<P>, s: State<P>, act: Action)
    ensures Step(sv, s, act).registry == if act.SetRegistry? then act.registry else s.registry
  {
    hide GetPublicKey, WindowError, EnterStep, Verify, Move, Conclude;
    MovesOnly<P>();
    if act.Enter? && PhaseOf(s, act.task).Timely? { EnterKeepsRegistry(sv, s, act.task, PhaseOf(s, act.task)); }
  }

  lemma EnterKeepsRegistry<P(!new)>(sv: Service<P>, s: State<P>, task: nat, p: Phase<P>)
    requires p.Timely?
    ensures EnterStep(sv, s, task, p).registry == s.registry
  {
    hide Section;
  }

  /** The registry as the actions alone determine it. */
  function LastSet(registry: Registry, run: seq<Action>, k: nat): Registry
    requires k <= |run|
  {
    if k == 0 then registry
    else if run[k - 1].SetRegistry? then run[k - 1].registry
    else LastSet(registry, run, k - 1)
  }

  lemma {:induction false} RegistryIsOutside<P(!new)>(sv: Service<P>, registry: Registry, run: seq<Action>, k: nat)
    requires k <= |run|
    ensures StateAt(sv, registry, run, k).registry == LastSet(registry, run, k)
  {
    hide Step;
    if k > 0 {
      RegistryIsOutside(sv, registry, run, k - 1);
      StateAtStep(sv, registry, run, k - 1);
      RegistryStep(sv, StateAt(sv, registry, run, k - 1), run[k - 1]);
    }
  }

  lemma {:induction false} LastSetExact(registry: Registry, run: seq<Action>, k: nat, m: nat)
    requires m <= k <= |run| && forall j :: m <= j < k ==> !run[j].SetRegistry?
    ensures LastSet(registry, run, k) == LastSet(registry, run, m)
  {
    if m < k { LastSetExact(registry, run, k - 1, m); }
  }

  /** The registry is read and never written by the tasks: at every moment of every run it is the one
      last set from outside, or the initial one. */
  lemma RegistryIsLastSet<P(!new)>(sv: Service<P>, registry: Registry, run: seq<Action>, k: nat)
    requires k <= |run|
    ensures (forall j :: 0 <= j < k ==> !run[j].SetRegistry?) ==> StateAt(sv, registry, run, k).registry == registry
    ensures forall m :: 0 <= m < k && run[m].SetRegistry? && (forall j :: m < j < k ==> !run[j].SetRegistry?) ==>
              StateAt(sv, registry, run, k).registry == run[m].registry
  {
    hide StateAt;
    RegistryIsOutside(sv, registry, run, k);
    if forall j :: 0 <= j < k ==> !run[j].SetRegistry? { LastSetExact(registry, run, k, 0); }
    forall m | 0 <= m < k && run[m].SetRegistry? && (forall j :: m < j < k ==> !run[j].SetRegistry?)
      ensures LastSet(registry, run, k) == run[m].registry
    {
      LastSetExact(registry, run, k, m + 1);
    }
  }

  // ----- What stands behind a phase and a conclusion -----

  /** At a the task took up the request, and the registry of that moment held the key it names. */
  predicate NamedAt<P(!new, ==)>(sv: Service<P>, registry: Registry, run: seq<Action>, task: nat, q: AuthRequest,
                                 key: P, a: nat) {
    && a < |run| && run[a].LookUp? && run[a].task == task && run[a].q == q
    && GetPublicKey(sv, StateAt(sv, registry, run, a).registry, run[a].fault, q.userId) == Registered(key)
    && q.publicKey == sv.curve.toBytes(key)
  }

  /** At b the task read the clock and found the request inside the window. */
  predicate TimedAt<P(!new, ==)>(sv: Service<P>, run: seq<Action>, task: nat, q: AuthRequest, a: nat, b: nat) {
    && a < b < |run| && run[b].ReadClock? && run[b].task == task
    && WindowError(sv.drift, run[b].now, q.proof.timestamp) == None
  }

  /** At c the task's critical section, with the reading of b, left this answer. */
  predicate EnteredAt<P(!new, ==)>(sv: Service<P>, registry: Registry, run: seq<Action>, task: nat, q: AuthRequest,
                                   b: nat, c: nat, accepted: bool) {
    && b < c < |run| && run[c] == Enter(task) && run[b].ReadClock?
    && var before, after := StateAt(sv, registry, run, c), StateAt(sv, registry, run, c + 1);
       && (after.cache, accepted) == Section(sv.drift, before.cache, CallOf(q, run[b].now))
       && after.history == before.history + [CallOf(q, run[b].now)]
  }

  predicate PhaseOk<P(!new, ==)>(sv: Service<P>, registry: Registry, run: seq<Action>, task: nat, p: Phase<P>) {
    match p
    case Idle => true
    case Named(q, key, a) => NamedAt(sv, registry, run, task, q, key, a)
    case Timely(q, key, a, b, now) =>
      NamedAt(sv, registry, run, task, q, key, a) && TimedAt(sv, run, task, q, a, b) && run[b].now == now
    case Recorded(q, key, a, b, c) =>
      && NamedAt(sv, registry, run, task, q, key, a) && TimedAt(sv, run, task, q, a, b)
      && EnteredAt(sv, registry, run, task, q, b, c, true)
  }

  /** The steps of a trail are steps of the run, in order, by one task, on one request. */
  predicate Taken(run: seq<Action>, task: nat, q: AuthRequest, trail: Trail) {
    && trail.a < |run| && run[trail.a].LookUp? && run[trail.a].task == task && run[trail.a].q == q
    && (!trail.AtLookUp? ==> trail.a < trail.b < |run| && run[trail.b].ReadClock? && run[trail.b].task == task)
    && (trail.AtEnter? || trail.AtFinish? ==> trail.b < trail.c < |run| && run[trail.c] == Enter(task))
    && (trail.AtFinish? ==> trail.c < trail.e < |run| && run[trail.e] == Finish(task))
  }

  /** A scene with the registry of the lookup, the reading of the clock step and the cache of the
      critical section, as far as the trail goes. */
  predicate SceneOf<P(!new, ==)>(sv: Service<P>, registry: Registry, run: seq<Action>, trail: Trail, sc: Scene)
    requires trail.a < |run| && run[trail.a].LookUp?
    requires !trail.AtLookUp? ==> trail.b < |run| && run[trail.b].ReadClock?
    requires trail.AtEnter? || trail.AtFinish? ==> trail.c < |run|
  {
    && sc.registry == StateAt(sv, registry, run, trail.a).registry && sc.fault == run[trail.a].fault
    && (!trail.AtLookUp? ==> sc.now == run[trail.b].now)
    && (trail.AtEnter? || trail.AtFinish? ==> sc.cache == StateAt(sv, registry, run, trail.c).cache)
  }

  /** The conclusion is the gate's decision on every scene of its trail, and the gate leaves the
      cache that the critical section left, or the one it found where there was none. */
  ghost predicate Justified<P(!new)>(sv: Service<P>, registry: Registry, run: seq<Action>, r: Conclusion) {
    && Taken(run, r.task, r.q, r.trail)
    && (forall sc :: SceneOf(sv, registry, run, r.trail, sc) ==>
          TcpDecide(sv, sc, r.q) ==
            (if r.trail.AtLookUp? || r.trail.AtClock? then sc.cache
             else StateAt(sv, registry, run, r.trail.c + 1).cache,
             r.decision)
          && (!r.trail.AtLookUp? ==> Identified(sv, sc, r.q)))
    && (!r.trail.AtFinish? ==> r.decision.Decided? && !r.decision.success)
    && (r.trail.AtEnter? ==> r.decision == Decided(false, ReplayRefused(ReplayDetected)))
    && (r.trail.AtEnter? || r.trail.AtFinish? ==>
          EnteredAt(sv, registry, run, r.task, r.q, r.trail.b, r.trail.c, r.trail.AtFinish?))
  }

  /** A task takes up a request only when it is done with the one before. */
  predicate Serial<P>(s: State<P>) {
    && (forall i :: 0 <= i < |s.concluded| ==> s.concluded[i].trail.Last() < s.time)
    && (forall i, j :: 0 <= i < j < |s.concluded| && s.concluded[i].task == s.concluded[j].task ==>
          s.concluded[i].trail.Last() < s.concluded[j].trail.a)
    && (forall i, t :: 0 <= i < |s.concluded| && t in s.tasks && s.concluded[i].task == t && !s.tasks[t].Idle? ==>
          s.concluded[i].trail.Last() < s.tasks[t].a)
  }

  ghost predicate Inv<P(!new)>(sv: Service<P>, registry: Registry, run: seq<Action>) {
    var s := Exec(sv, registry, run);
    && s.time == |run|
    && (forall t :: t in s.tasks ==> PhaseOk(sv, registry, run, t, s.tasks[t]))
    && (forall i :: 0 <= i < |s.concluded| ==> Justified(sv, registry, run, s.concluded[i]))
    && Serial(s)
  }

  // ----- Longer runs -----

  lemma NamingStays<P(!new)>(sv: Service<P>, registry: Registry, run: seq<Action>, act: Action,
                             task: nat, q: AuthRequest, key: P, a: nat)
    requires NamedAt(sv, registry, run, task, q, key, a)
    ensures NamedAt(sv, registry, run + [act], task, q, key, a)
  {
    hide StateAt, GetPublicKey;
    StateAtLonger(sv, registry, run, act);
  }

  lemma EntryStays<P(!new)>(sv: Service<P>, registry: Registry, run: seq<Action>, act: Action, task: nat,
                            q: AuthRequest, b: nat, c: nat, accepted: bool)
    requires EnteredAt(sv, registry, run, task, q, b, c, accepted)
    ensures EnteredAt(sv, registry, run + [act], task, q, b, c, accepted)
    ensures StateAt(sv, registry, run + [act], c + 1) == StateAt(sv, registry, run, c + 1)
  {
    hide StateAt, Section;
    StateAtLonger(sv, registry, run, act);
  }

  lemma PhaseStaysOk<P(!new)>(sv: Service<P>, registry: Registry, run: seq<Action>, act: Action, task: nat, p: Phase<P>)
    requires PhaseOk(sv, registry, run, task, p)
    ensures PhaseOk(sv, registry, run + [act], task, p)
  {
    hide NamedAt, EnteredAt, WindowError;
    if !p.Idle? { NamingStays(sv, registry, run, act, task, p.q, p.key, p.a); }
    if p.Recorded? { EntryStays(sv, registry, run, act, task, p.q, p.b, p.c, true); }
  }

  lemma SceneStays<P(!new)>(sv: Service<P>, registry: Registry, run: seq<Action>, act: Action, r: Conclusion, sc: Scene)
    requires Taken(run, r.task, r.q, r.trail)
    ensures Taken(run + [act], r.task, r.q, r.trail)
    ensures SceneOf(sv, registry, run + [act], r.trail, sc) <==> SceneOf(sv, registry, run, r.trail, sc)
  {
    hide StateAt;
    StateAtLonger(sv, registry, run, act);
    TakenStays(run, act, r);
  }

  lemma TakenStays(run: seq<Action>, act: Action, r: Conclusion)
    requires Taken(run, r.task, r.q, r.trail)
    ensures Taken(run + [act], r.task, r.q, r.trail)
  {
  }

  lemma StaysJustified<P(!new)>(sv: Service<P>, registry: Registry, run: seq<Action>, act: Action, r: Conclusion)
    requires Justified(sv, registry, run, r)
    ensures Justified(sv, registry, run + [act], r)
  {
    hide StateAt, TcpDecide, SceneOf, EnteredAt;
    var trail := r.trail;
    if trail.AtEnter? || trail.AtFinish? {
      EntryStays(sv, registry, run, act, r.task, r.q, trail.b, trail.c, trail.AtFinish?);
    }
    forall sc ensures SceneOf(sv, registry, run + [act], trail, sc) <==> SceneOf(sv, registry, run, trail, sc) {
      SceneStays(sv, registry, run, act, r, sc);
    }
  }

  // ----- Every step keeps the invariant -----

  /** A step that moves one task to the phase p and adds at most one conclusion. */
  lemma StepKeeps<P(!new)>(sv: Service<P>, registry: Registry, run: seq<Action>, act: Action, task: nat, p: Phase<P>,
                           added: seq<Conclusion>)
    requires Inv(sv, registry, run)
    requires var s, s' := Exec(sv, registry, run), Exec(sv, registry, run + [act]);
             && s'.time == s.time + 1
             && s'.tasks == s.tasks[task := p] && s'.concluded == s.concluded + added
             && (!p.Idle? ==> added == [] && (p.a == |run| || (!PhaseOf(s, task).Idle? && p.a == PhaseOf(s, task).a)))
             && (added == [] || (|added| == 1 && added[0].task == task && added[0].trail.Last() == |run| &&
                   (added[0].trail.a == |run| || (!PhaseOf(s, task).Idle? && added[0].trail.a == PhaseOf(s, task).a))))
    requires PhaseOk(sv, registry, run + [act], task, p)
    requires added != [] ==> Justified(sv, registry, run + [act], added[0])
    ensures Inv(sv, registry, run + [act])
  {
    hide Exec, PhaseOk, Justified;
    var s, s' := Exec(sv, registry, run), Exec(sv, registry, run + [act]);
    forall t | t in s'.tasks ensures PhaseOk(sv, registry, run + [act], t, s'.tasks[t]) {
      if t != task { PhaseStaysOk(sv, registry, run, act, t, s.tasks[t]); }
    }
    forall i | 0 <= i < |s'.concluded| ensures Justified(sv, registry, run + [act], s'.concluded[i]) {
      if i < |s.concluded| { StaysJustified(sv, registry, run, act, s.concluded[i]); }
    }
    StaysSerial(s, s', task, p, added);
  }

  lemma StaysSerial<P(!new)>(s: State<P>, s': State<P>, task: nat, p: Phase<P>, added: seq<Conclusion>)
    requires Serial(s) && s'.time == s.time + 1
    requires s'.tasks == s.tasks[task := p] && s'.concluded == s.concluded + added
    requires !p.Idle? ==> added == [] && (p.a == s.time || (!PhaseOf(s, task).Idle? && p.a == PhaseOf(s, task).a))
    requires added == [] || (|added| == 1 && added[0].task == task && added[0].trail.Last() == s.time &&
               (added[0].trail.a == s.time || (!PhaseOf(s, task).Idle? && added[0].trail.a == PhaseOf(s, task).a)))
    ensures Serial(s')
  {
    hide Trail.Last;
    forall i, j | 0 <= i < j < |s'.concluded| && s'.concluded[i].task == s'.concluded[j].task
      ensures s'.concluded[i].trail.Last() < s'.concluded[j].trail.a
    {
      if j == |s.concluded| { assert s'.concluded[j] == added[0]; }
    }
  }

  /** A step without effect on tasks and conclusions. */
  lemma WaitKeeps<P(!new)>(sv: Service<P>, registry: Registry, run: seq<Action>, act: Action)
    requires Inv(sv, registry, run)
    requires var s, s' := Exec(sv, registry, run), Exec(sv, registry, run + [act]);
             s'.time == s.time + 1 && s'.tasks == s.tasks && s'.concluded == s.concluded
    ensures Inv(sv, registry, run + [act])
  {
    hide Exec, PhaseOk, Justified;
    var s := Exec(sv, registry, run);
    forall t | t in s.tasks ensures PhaseOk(sv, registry, run + [act], t, s.tasks[t]) {
      PhaseStaysOk(sv, registry, run, act, t, s.tasks[t]);
    }
    forall i | 0 <= i < |s.concluded| ensures Justified(sv, registry, run + [act], s.concluded[i]) {
      StaysJustified(sv, registry, run, act, s.concluded[i]);
    }
  }

  /** A run and one more step. */
  lemma ExecSnoc<P(!new)>(sv: Service<P>, registry: Registry, run: seq<Action>, act: Action)
    ensures Exec(sv, registry, run + [act]) == Step(sv, Exec(sv, registry, run), act)
  {
    assert (run + [act])[..|run|] == run;
  }

  lemma LookUpKeeps<P(!new)>(sv: Service<P>, registry: Registry, run: seq<Action>, act: Action)
    requires Inv(sv, registry, run) && act.LookUp? && PhaseOf(Exec(sv, registry, run), act.task).Idle?
    ensures Inv(sv, registry, run + [act])
  {
    hide Exec, StateAt, Inv, GetPublicKey, Check, Verify, Justified, PhaseOk;
    var s := Exec(sv, registry, run);
    TimeIsLength(sv, registry, run);
    ExecSnoc(sv, registry, run, act);
    StateAtLonger(sv, registry, run, act);
    StateAtEnd(sv, registry, run);
    var found := GetPublicKey(sv, s.registry, act.fault, act.q.userId);
    if found.Registered? && act.q.publicKey == sv.curve.toBytes(found.key) {
      NamedPhaseOk(sv, registry, run + [act], act.task, act.q, found.key, |run|);
      assert s.concluded + [] == s.concluded;
      StepKeeps(sv, registry, run, act, act.task, Named(act.q, found.key, |run|), []);
    } else {
      var reason :=
        match found
        case Unknown => NotRegistered
        case StorageError(detail) => StorageFailed(detail)
        case Registered(_) => KeyMismatch;
      var r := Conclusion(act.task, act.q, Decided(false, reason), AtLookUp(|run|));
      DeniedAtLookUp(sv, registry, run + [act], r);
      IdlePhaseOk(sv, registry, run + [act], act.task);
      StepKeeps(sv, registry, run, act, act.task, Idle, [r]);
    }
  }

  lemma TimeIsLength<P(!new)>(sv: Service<P>, registry: Registry, run: seq<Action>)
    requires Inv(sv, registry, run)
    ensures Exec(sv, registry, run).time == |run|
  {
  }

  lemma IdlePhaseOk<P(!new)>(sv: Service<P>, registry: Registry, run: seq<Action>, task: nat)
    ensures PhaseOk(sv, registry, run, task, Idle)
  {
  }

  lemma NamedPhaseOk<P(!new)>(sv: Service<P>, registry: Registry, run: seq<Action>, task: nat, q: AuthRequest, key: P,
                              a: nat)
    requires NamedAt(sv, registry, run, task, q, key, a)
    ensures PhaseOk(sv, registry, run, task, Named(q, key, a))
  {
  }

  /** Failing the lookup or the key match is the gate's decision whatever comes after. */
  lemma DeniedAtLookUp<P(!new)>(sv: Service<P>, registry: Registry, run: seq<Action>, r: Conclusion)
    requires r.trail.AtLookUp? && Taken(run, r.task, r.q, r.trail)
    requires var met := StateAt(sv, registry, run, r.trail.a).registry;
             match GetPublicKey(sv, met, run[r.trail.a].fault, r.q.userId)
             case Unknown => r.decision == Decided(false, NotRegistered)
             case StorageError(detail) => r.decision == Decided(false, StorageFailed(detail))
             case Registered(pk) => r.q.publicKey != sv.curve.toBytes(pk) && r.decision == Decided(false, KeyMismatch)
    ensures Justified(sv, registry, run, r)
  {
    hide StateAt, GetPublicKey, Check, Verify;
  }

  lemma ClockKeeps<P(!new)>(sv: Service<P>, registry: Registry, run: seq<Action>, act: Action)
    requires Inv(sv, registry, run) && act.ReadClock? && PhaseOf(Exec(sv, registry, run), act.task).Named?
    ensures Inv(sv, registry, run + [act])
  {
    hide Exec, StateAt, Inv, WindowError, Justified, PhaseOk, NamedAt;
    var s := Exec(sv, registry, run);
    var p := PhaseOf(s, act.task);
    PhaseIsOk(sv, registry, run, act.task);
    PhaseStaysOk(sv, registry, run, act, act.task, p);
    NamedPhaseParts(sv, registry, run + [act], act.task, p);
    ExecSnoc(sv, registry, run, act);
    match WindowError(sv.drift, act.now, p.q.proof.timestamp)
    case Some(e) =>
      var r := Conclusion(act.task, p.q, Decided(false, ReplayRefused(e)), AtClock(p.a, |run|));
      DeniedAtClock(sv, registry, run + [act], r, p.key, e);
      IdlePhaseOk(sv, registry, run + [act], act.task);
      StepKeeps(sv, registry, run, act, act.task, Idle, [r]);
    case None =>
      TimelyPhaseOk(sv, registry, run + [act], act.task, p.q, p.key, p.a, |run|);
      assert s.concluded + [] == s.concluded;
      StepKeeps(sv, registry, run, act, act.task, Timely(p.q, p.key, p.a, |run|, act.now), []);
  }

  lemma PhaseIsOk<P(!new)>(sv: Service<P>, registry: Registry, run: seq<Action>, task: nat)
    requires Inv(sv, registry, run)
    ensures PhaseOk(sv, registry, run, task, PhaseOf(Exec(sv, registry, run), task))
    ensures var p := PhaseOf(Exec(sv, registry, run), task);
            (!p.Idle? ==> p.a < |run|) && (p.Timely? || p.Recorded? ==> p.b < |run|) && (p.Recorded? ==> p.c < |run|)
    ensures Exec(sv, registry, run).time == |run|
  {
    hide Exec;
  }

  lemma NamedPhaseParts<P(!new)>(sv: Service<P>, registry: Registry, run: seq<Action>, task: nat, p: Phase<P>)
    requires p.Named? && PhaseOk(sv, registry, run, task, p)
    ensures NamedAt(sv, registry, run, task, p.q, p.key, p.a)
  {
  }

  lemma TimelyPhaseOk<P(!new)>(sv: Service<P>, registry: Registry, run: seq<Action>, task: nat, q: AuthRequest, key: P,
                               a: nat, b: nat)
    requires NamedAt(sv, registry, run, task, q, key, a) && TimedAt(sv, run, task, q, a, b)
    ensures PhaseOk(sv, registry, run, task, Timely(q, key, a, b, run[b].now))
  {
  }

  /** Failing the window test is the gate's decision whatever the cache holds. */
  lemma DeniedAtClock<P(!new)>(sv: Service<P>, registry: Registry, run: seq<Action>, r: Conclusion, key: P,
                               e: ReplayError)
    requires r.trail.AtClock? && Taken(run, r.task, r.q, r.trail)
    requires NamedAt(sv, registry, run, r.task, r.q, key, r.trail.a)
    requires WindowError(sv.drift, run[r.trail.b].now, r.q.proof.timestamp) == Some(e)
    requires r.decision == Decided(false, ReplayRefused(e))
    ensures Justified(sv, registry, run, r)
  {
    hide StateAt, GetPublicKey, WindowError, Section, Verify;
  }

  lemma EnterKeeps<P(!new)>(sv: Service<P>, registry: Registry, run: seq<Action>, act: Action)
    requires Inv(sv, registry, run) && act.Enter? && PhaseOf(Exec(sv, registry, run), act.task).Timely?
    ensures Inv(sv, registry, run + [act])
  {
    hide Exec, StateAt, Inv, Section, Justified, PhaseOk, NamedAt, TimedAt, EnteredAt;
    var s := Exec(sv, registry, run);
    var p := PhaseOf(s, act.task);
    PhaseIsOk(sv, registry, run, act.task);
    PhaseStaysOk(sv, registry, run, act, act.task, p);
    TimelyPhaseParts(sv, registry, run + [act], act.task, p);
    ExecSnoc(sv, registry, run, act);
    var accepted := Section(sv.drift, s.cache, CallOf(p.q, p.now)).1;
    JustEntered(sv, registry, run, act, p, accepted);
    if accepted {
      RecordedPhaseOk(sv, registry, run + [act], act.task, p.q, p.key, p.a, p.b, |run|);
      assert s.concluded + [] == s.concluded;
      StepKeeps(sv, registry, run, act, act.task, Recorded(p.q, p.key, p.a, p.b, |run|), []);
    } else {
      var r := Conclusion(act.task, p.q, Decided(false, ReplayRefused(ReplayDetected)), AtEnter(p.a, p.b, |run|));
      DeniedAtEnter(sv, registry, run + [act], r, p.key);
      IdlePhaseOk(sv, registry, run + [act], act.task);
      StepKeeps(sv, registry, run, act, act.task, Idle, [r]);
    }
  }

  lemma TimelyPhaseParts<P(!new)>(sv: Service<P>, registry: Registry, run: seq<Action>, task: nat, p: Phase<P>)
    requires p.Timely? && PhaseOk(sv, registry, run, task, p)
    ensures NamedAt(sv, registry, run, task, p.q, p.key, p.a) && TimedAt(sv, run, task, p.q, p.a, p.b)
    ensures p.b < |run| && run[p.b].ReadClock? && run[p.b].now == p.now
  {
  }

  /** The critical section just taken, seen from the longer run. */
  lemma JustEntered<P(!new)>(sv: Service<P>, registry: Registry, run: seq<Action>, act: Action, p: Phase<P>,
                             accepted: bool)
    requires act.Enter? && p.Timely? && PhaseOf(Exec(sv, registry, run), act.task) == p
    requires p.b < |run| && run[p.b].ReadClock? && run[p.b].now == p.now
    requires accepted == Section(sv.drift, Exec(sv, registry, run).cache, CallOf(p.q, p.now)).1
    ensures EnteredAt(sv, registry, run + [act], act.task, p.q, p.b, |run|, accepted)
  {
    hide Exec, StateAt, Section;
    StateAtLonger(sv, registry, run, act);
    StateAtEnd(sv, registry, run);
  }

  lemma RecordedPhaseOk<P(!new)>(sv: Service<P>, registry: Registry, run: seq<Action>, task: nat, q: AuthRequest,
                                 key: P, a: nat, b: nat, c: nat)
    requires NamedAt(sv, registry, run, task, q, key, a) && TimedAt(sv, run, task, q, a, b)
    requires EnteredAt(sv, registry, run, task, q, b, c, true)
    ensures PhaseOk(sv, registry, run, task, Recorded(q, key, a, b, c))
  {
  }

  /** Being refused as a replay is the gate's decision on the cache of the section. */
  lemma DeniedAtEnter<P(!new)>(sv: Service<P>, registry: Registry, run: seq<Action>, r: Conclusion, key: P)
    requires r.trail.AtEnter?
    requires NamedAt(sv, registry, run, r.task, r.q, key, r.trail.a)
    requires TimedAt(sv, run, r.task, r.q, r.trail.a, r.trail.b)
    requires EnteredAt(sv, registry, run, r.task, r.q, r.trail.b, r.trail.c, false)
    requires r.decision == Decided(false, ReplayRefused(ReplayDetected))
    ensures Justified(sv, registry, run, r)
  {
    hide StateAt, GetPublicKey, WindowError, Section, Verify;
  }

  lemma FinishKeeps<P(!new)>(sv: Service<P>, registry: Registry, run: seq<Action>, act: Action)
    requires Inv(sv, registry, run) && act.Finish? && PhaseOf(Exec(sv, registry, run), act.task).Recorded?
    ensures Inv(sv, registry, run + [act])
  {
    hide Exec, StateAt, Inv, Verify, VerifyDecision, Justified, PhaseOk, NamedAt, TimedAt, EnteredAt;
    var p := PhaseOf(Exec(sv, registry, run), act.task);
    PhaseIsOk(sv, registry, run, act.task);
    PhaseStaysOk(sv, registry, run, act, act.task, p);
    RecordedPhaseParts(sv, registry, run + [act], act.task, p);
    ExecSnoc(sv, registry, run, act);
    var decision := VerifyDecision(Verify(sv.curve, p.key, p.q.proof));
    var r := Conclusion(act.task, p.q, decision, AtFinish(p.a, p.b, p.c, |run|));
    DecidedAtFinish(sv, registry, run + [act], r, p.key);
    IdlePhaseOk(sv, registry, run + [act], act.task);
    StepKeeps(sv, registry, run, act, act.task, Idle, [r]);
  }

  lemma RecordedPhaseParts<P(!new)>(sv: Service<P>, registry: Registry, run: seq<Action>, task: nat, p: Phase<P>)
    requires p.Recorded? && PhaseOk(sv, registry, run, task, p)
    ensures NamedAt(sv, registry, run, task, p.q, p.key, p.a) && TimedAt(sv, run, task, p.q, p.a, p.b)
    ensures EnteredAt(sv, registry, run, task, p.q, p.b, p.c, true)
  {
  }

  /** What verification says under the key looked up is the gate's decision. */
  lemma DecidedAtFinish<P(!new)>(sv: Service<P>, registry: Registry, run: seq<Action>, r: Conclusion, key: P)
    requires r.trail.AtFinish? && r.trail.c < r.trail.e < |run| && run[r.trail.e] == Finish(r.task)
    requires NamedAt(sv, registry, run, r.task, r.q, key, r.trail.a)
    requires TimedAt(sv, run, r.task, r.q, r.trail.a, r.trail.b)
    requires EnteredAt(sv, registry, run, r.task, r.q, r.trail.b, r.trail.c, true)
    requires r.decision == VerifyDecision(Verify(sv.curve, key, r.q.proof))
    ensures Justified(sv, registry, run, r)
  {
    hide StateAt, GetPublicKey, WindowError, Section, Verify, VerifyDecision;
  }

  lemma StepKeepsInv<P(!new)>(sv: Service<P>, registry: Registry, run: seq<Action>, act: Action)
    requires Inv(sv, registry, run)
    ensures Inv(sv, registry, run + [act])
  {
    hide Exec, Inv, LookUpStep, ClockStep, EnterStep, FinishStep;
    var s := Exec(sv, registry, run);
    ExecSnoc(sv, registry, run, act);
    if act.LookUp? && PhaseOf(s, act.task).Idle? {
      LookUpKeeps(sv, registry, run, act);
    } else if act.ReadClock? && PhaseOf(s, act.task).Named? {
      ClockKeeps(sv, registry, run, act);
    } else if act.Enter? && PhaseOf(s, act.task).Timely? {
      EnterKeeps(sv, registry, run, act);
    } else if act.Finish? && PhaseOf(s, act.task).Recorded? {
      FinishKeeps(sv, registry, run, act);
    } else {
      WaitKeeps(sv, registry, run, act);
    }
  }

  /** The invariant holds after every run. */
  lemma {:induction false} InvAlways<P(!new)>(sv: Service<P>, registry: Registry, run: seq<Action>)
    ensures Inv(sv, registry, run)
  {
    if run != [] {
      var front := run[..|run| - 1];
      assert front + [run[|run| - 1]] == run;
      InvAlways(sv, registry, front);
      StepKeepsInv(sv, registry, front, run[|run| - 1]);
    }
  }

  // ----- Every conclusion is the gate's decision -----

  /** In every run, whatever is interleaved and however the clocks run, each conclusion (success,
      refusal or panic) is the decision of the gate on the request its task took up, at the
      registry of that task's lookup, the reading of its clock step and the cache of its critical
      section; and that section left the cache the gate leaves. */
  lemma EveryConclusionIsTheGates<P(!new)>(sv: Service<P>, registry: Registry, run: seq<Action>, i: nat)
    requires i < |Exec(sv, registry, run).concluded|
    ensures Justified(sv, registry, run, Exec(sv, registry, run).concluded[i])
  {
    hide Exec, Justified;
    InvAlways(sv, registry, run);
  }

  /** No request taken up is concluded twice. */
  lemma ConcludedOnce<P(!new)>(sv: Service<P>, registry: Registry, run: seq<Action>, i: nat, j: nat)
    requires var s := Exec(sv, registry, run); i < |s.concluded| && j < |s.concluded|
    requires var s := Exec(sv, registry, run); s.concluded[i].trail.a == s.concluded[j].trail.a
    ensures i == j
  {
    hide Exec;
    InvAlways(sv, registry, run);
    var s := Exec(sv, registry, run);
    TrailsFollow(sv, registry, run, s.concluded[i]);
    TrailsFollow(sv, registry, run, s.concluded[j]);
  }

  lemma TrailsFollow<P(!new)>(sv: Service<P>, registry: Registry, run: seq<Action>, r: Conclusion)
    requires Justified(sv, registry, run, r)
    ensures r.trail.a < |run| && run[r.trail.a].LookUp? && run[r.trail.a].task == r.task
    ensures r.trail.a <= r.trail.Last() < |run|
    ensures r.trail.AtFinish? || r.trail.AtEnter? ==> r.trail.a < r.trail.c <= r.trail.Last()
  {
    hide StateAt, TcpDecide, Section;
  }

  /** The registry of the lookup, the reading of the clock step, the cache of the section. */
  function SceneBehind<P(!new, ==)>(sv: Service<P>, registry: Registry, run: seq<Action>, trail: Trail): Scene
    requires trail.AtEnter? || trail.AtFinish?
    requires trail.a < |run| && run[trail.a].LookUp? && trail.b < |run| && run[trail.b].ReadClock? && trail.c < |run|
  {
    Scene(
      StateAt(sv, registry, run, trail.a).registry, run[trail.a].fault,
      run[trail.b].now,
      StateAt(sv, registry, run, trail.c).cache)
  }

  predicate SaneRun(d: i64, run: seq<Action>) {
    forall i :: 0 <= i < |run| && run[i].ReadClock? ==> SaneClock(d, run[i].now)
  }

  lemma LookupFinds<P(!new)>(sv: Service<P>, registry: Registry, fault: Option<Text>, user: Text, pk: P)
    requires GetPublicKey(sv, registry, fault, user) == Registered(pk)
    ensures fault == None && user in registry && sv.curve.fromBytes(registry[user]) == OnCurve(pk)
  {
  }

  /** End-to-end safety. Every success of every run goes back to four steps of one task, in order:
      taking up the request while the registry held the key it names, reading a clock within the
      tolerance of its timestamp, entering a critical section whose cache held no live entry for
      its nonce, and verifying its proof under that key. */
  lemma GrantsAreJustified<P(!new)>(sv: Service<P>, registry: Registry, run: seq<Action>, i: nat) returns (pk: P)
    requires SaneRun(sv.drift, run) && i < |Exec(sv, registry, run).concluded|
    requires var r := Exec(sv, registry, run).concluded[i]; r.decision.Decided? && r.decision.success
    ensures var r := Exec(sv, registry, run).concluded[i];
            var q, trail, key := r.q, r.trail, (r.q.userId, r.q.proof.nonce);
            && trail.AtFinish? && trail.a < trail.b < trail.c < trail.e < |run|
            && run[trail.a].LookUp? && run[trail.a].task == r.task && run[trail.a].q == q
            && run[trail.a].fault == None
            && (var enrolled := LastSet(registry, run, trail.a);
                q.userId in enrolled && sv.curve.fromBytes(enrolled[q.userId]) == OnCurve(pk))
            && q.publicKey == sv.curve.toBytes(pk)
            && run[trail.b].ReadClock? && run[trail.b].task == r.task
            && Age(run[trail.b].now, q.proof.timestamp) <= sv.drift
            && run[trail.c] == Enter(r.task)
            && (var cache := StateAt(sv, registry, run, trail.c).cache;
                !(key in cache && cache[key] >= run[trail.b].now - sv.drift))
            && run[trail.e] == Finish(r.task)
            && Verify(sv.curve, pk, q.proof) == Accepted && Proves(sv.curve, pk, q.proof)
  {
    hide Exec, StateAt, Section, GetPublicKey, TcpDecide, Verify, Proves;
    EveryConclusionIsTheGates(sv, registry, run, i);
    var r := Exec(sv, registry, run).concluded[i];
    var sc := SceneBehind(sv, registry, run, r.trail);
    assert SceneOf(sv, registry, run, r.trail, sc);
    SuccessExactly(sv, sc, r.q);
    RegistryIsOutside(sv, registry, run, r.trail.a);
    pk :| NamesKey(sv, sc, r.q, pk) && Verify(sv.curve, pk, r.q.proof) == Accepted;
    LookupFinds(sv, sc.registry, sc.fault, r.q.userId, pk);
    VerifyExactly(sv.curve, pk, r.q.proof);
  }

  /** Entering the critical section with a fresh proof uses up its nonce, whatever verification
      then says and even when it panics. */
  lemma FinishedUsesNonce<P(!new)>(sv: Service<P>, registry: Registry, run: seq<Action>, i: nat)
    requires i < |Exec(sv, registry, run).concluded| && Exec(sv, registry, run).concluded[i].trail.AtFinish?
    ensures var r := Exec(sv, registry, run).concluded[i];
            && r.trail.c < |run|
            && var cache, key := StateAt(sv, registry, run, r.trail.c + 1).cache, (r.q.userId, r.q.proof.nonce);
               key in cache && cache[key] == r.q.proof.timestamp
  {
    hide Exec, StateAt, GetPublicKey, TcpDecide, Verify;
    EveryConclusionIsTheGates(sv, registry, run, i);
    var r := Exec(sv, registry, run).concluded[i];
    var sc := SceneBehind(sv, registry, run, r.trail);
    assert SceneOf(sv, registry, run, r.trail, sc);
    CacheEffect(sv, sc, r.q);
  }

  // ----- The critical sections of a run -----

  /** The place in the history of the section entered at c. */
  function SectionOf<P(!new, ==)>(sv: Service<P>, registry: Registry, run: seq<Action>, c: nat): nat {
    if c <= |run| then |StateAt(sv, registry, run, c).history| else 0
  }

  /** The sections of a run are a history of calls that passed the window test, and the cache is
      the one that history leaves. */
  lemma {:induction false} CacheIsOfHistory<P(!new)>(sv: Service<P>, registry: Registry, run: seq<Action>)
    requires SaneRun(sv.drift, run)
    ensures var s := Exec(sv, registry, run);
            History(sv.drift, s.history) && s.cache == CacheAfter(sv.drift, s.history)
  {
    if run != [] {
      var front, act := run[..|run| - 1], run[|run| - 1];
      assert front + [act] == run;
      CacheIsOfHistory(sv, registry, front);
      var s := Exec(sv, registry, front);
      if act.Enter? && PhaseOf(s, act.task).Timely? {
        var p := PhaseOf(s, act.task);
        InvAlways(sv, registry, front);
        PhaseIsOk(sv, registry, front, act.task);
        TimelyIsEntered(sv, registry, front, act.task, p);
        SectionExtends(sv.drift, s.history, s.cache, CallOf(p.q, p.now));
        EnterExtends(sv, registry, front, act);
      } else {
        ElseUntouched(sv, s, act);
      }
    }
  }

  lemma TimelyIsEntered<P(!new)>(sv: Service<P>, registry: Registry, run: seq<Action>, task: nat, p: Phase<P>)
    requires SaneRun(sv.drift, run) && p.Timely? && PhaseOk(sv, registry, run, task, p)
    ensures Entered(sv.drift, CallOf(p.q, p.now))
  {
    hide StateAt, GetPublicKey, WindowError;
  }

  lemma SectionExtends(d: i64, h: seq<Call>, cache: Cache, c: Call)
    requires History(d, h) && cache == CacheAfter(d, h) && Entered(d, c)
    ensures History(d, h + [c]) && CacheAfter(d, h + [c]) == Section(d, cache, c).0
  {
    hide Section, Entered;
    assert (h + [c])[..|h|] == h;
  }

  lemma EnterExtends<P(!new)>(sv: Service<P>, registry: Registry, run: seq<Action>, act: Action)
    requires act.Enter? && PhaseOf(Exec(sv, registry, run), act.task).Timely?
    ensures var s, s' := Exec(sv, registry, run), Exec(sv, registry, run + [act]);
            var c := CallOf(PhaseOf(s, act.task).q, PhaseOf(s, act.task).now);
            s'.history == s.history + [c] && s'.cache == Section(sv.drift, s.cache, c).0
  {
    hide Exec, Section;
    ExecSnoc(sv, registry, run, act);
  }

  lemma ElseUntouched<P(!new)>(sv: Service<P>, s: State<P>, act: Action)
    requires !(act.Enter? && PhaseOf(s, act.task).Timely?)
    ensures Step(sv, s, act).history == s.history && Step(sv, s, act).cache == s.cache
  {
    hide GetPublicKey, WindowError, Verify, EnterStep, Move, Conclude;
    MovesOnly<P>();
  }

  lemma {:induction false} HistoryGrows<P(!new)>(sv: Service<P>, registry: Registry, run: seq<Action>, k: nat, m: nat)
    requires k <= m <= |run|
    ensures StateAt(sv, registry, run, k).history <= StateAt(sv, registry, run, m).history
    decreases m
  {
    hide Exec, StateAt, Step;
    if k < m {
      HistoryGrows(sv, registry, run, k, m - 1);
      StateAtStep(sv, registry, run, m - 1);
      StepGrowsHistory(sv, StateAt(sv, registry, run, m - 1), run[m - 1]);
    }
  }

  lemma StepGrowsHistory<P(!new)>(sv: Service<P>, s: State<P>, act: Action)
    ensures s.history <= Step(sv, s, act).history
  {
    hide GetPublicKey, WindowError, Section, Verify;
    if !(act.Enter? && PhaseOf(s, act.task).Timely?) { ElseUntouched(sv, s, act); }
  }

  /** The section behind a conclusion: where it stands in the history, which call it was, and
      that the cache accepted it exactly when the conclusion was drawn after it. */
  lemma SectionBehind<P(!new)>(sv: Service<P>, registry: Registry, run: seq<Action>, r: Conclusion)
    requires SaneRun(sv.drift, run) && Justified(sv, registry, run, r) && (r.trail.AtEnter? || r.trail.AtFinish?)
    ensures var h, n := Exec(sv, registry, run).history, SectionOf(sv, registry, run, r.trail.c);
            && n < |h| && h[n] == CallOf(r.q, run[r.trail.b].now)
            && (AcceptedAt(sv.drift, h, n) <==> r.trail.AtFinish?)
            && h[..n] == StateAt(sv, registry, run, r.trail.c).history
  {
    hide Exec, StateAt, Section, TcpDecide, CacheAfter, Entered, AcceptedAt;
    var c := r.trail.c;
    var before := StateAt(sv, registry, run, c);
    HistoryGrows(sv, registry, run, c + 1, |run|);
    StateAtEnd(sv, registry, run);
    CacheBefore(sv, registry, run, c);
    var call := CallOf(r.q, run[r.trail.b].now);
    PrefixAnswer(sv.drift, Exec(sv, registry, run).history, before.history, call, before.cache);
  }

  lemma CacheBefore<P(!new)>(sv: Service<P>, registry: Registry, run: seq<Action>, c: nat)
    requires SaneRun(sv.drift, run) && c <= |run|
    ensures StateAt(sv, registry, run, c).cache == CacheAfter(sv.drift, StateAt(sv, registry, run, c).history)
  {
    CacheIsOfHistory(sv, registry, run[..c]);
  }

  lemma PrefixAnswer(d: i64, h: seq<Call>, before: seq<Call>, c: Call, cache: Cache)
    requires before + [c] <= h && cache == CacheAfter(d, before)
    ensures h[..|before|] == before && h[|before|] == c
    ensures AcceptedAt(d, h, |before|) <==> Section(d, cache, c).1
  {
    hide Section, CacheAfter;
    assert h[|before|] == (before + [c])[|before|];
    assert h[..|before|] == (before + [c])[..|before|] == before;
  }

  /** Every section was entered by some step, and later sections by later steps. */
  lemma {:induction false} SectionEntered<P(!new)>(sv: Service<P>, registry: Registry, run: seq<Action>, n: nat, k: nat)
    returns (c: nat)
    requires k <= |run| && n < SectionOf(sv, registry, run, k)
    ensures c < k && run[c].Enter? && SectionOf(sv, registry, run, c) == n
    decreases k
  {
    hide Exec, Step;
    if k == 0 {
      EmptyStart(sv, registry, run);
    } else {
      StateAtStep(sv, registry, run, k - 1);
      StepAddsOneSection(sv, StateAt(sv, registry, run, k - 1), run[k - 1]);
      if n < SectionOf(sv, registry, run, k - 1) {
        c := SectionEntered(sv, registry, run, n, k - 1);
      } else {
        c := k - 1;
      }
    }
  }

  /** Nothing reaches the cache but requests that were taken up under their enrolled key and timed
      inside the window: every section of a run goes back to three steps of one task. */
  lemma {:induction false} EverySectionIsTaken<P(!new)>(sv: Service<P>, registry: Registry, run: seq<Action>,
                                                        n: nat, k: nat)
    returns (a: nat, b: nat, c: nat, key: P)
    requires k <= |run| && n < SectionOf(sv, registry, run, k)
    ensures a < b < c < k && SectionOf(sv, registry, run, c) == n
    ensures run[a].LookUp? && run[b].ReadClock? && run[b].task == run[a].task && run[c] == Enter(run[a].task)
    ensures StateAt(sv, registry, run, k).history[n] == CallOf(run[a].q, run[b].now)
    ensures GetPublicKey(sv, LastSet(registry, run, a), run[a].fault, run[a].q.userId) == Registered(key)
    ensures run[a].q.publicKey == sv.curve.toBytes(key)
    ensures WindowError(sv.drift, run[b].now, run[a].q.proof.timestamp) == None
    decreases k
  {
    hide Exec, StateAt, Step, GetPublicKey, WindowError;
    if k == 0 {
      EmptyStart(sv, registry, run);
    } else {
      var s, act := StateAt(sv, registry, run, k - 1), run[k - 1];
      StateAtStep(sv, registry, run, k - 1);
      StepGrowsHistory(sv, s, act);
      if n < SectionOf(sv, registry, run, k - 1) {
        a, b, c, key := EverySectionIsTaken(sv, registry, run, n, k - 1);
      } else {
        StepAddsOneSection(sv, s, act);
        LastSectionIsTaken(sv, registry, run, k - 1);
        var p := PhaseOf(s, act.task);
        a, b, c, key := p.a, p.b, k - 1, p.key;
      }
    }
  }

  lemma LastSectionIsTaken<P(!new)>(sv: Service<P>, registry: Registry, run: seq<Action>, c: nat)
    requires c < |run| && run[c].Enter?
    requires SectionOf(sv, registry, run, c) < SectionOf(sv, registry, run, c + 1)
    ensures var s, p := StateAt(sv, registry, run, c), PhaseOf(StateAt(sv, registry, run, c), run[c].task);
            && p.Timely? && p.a < p.b < c
            && run[p.a].LookUp? && run[p.a].q == p.q && run[p.a].task == run[c].task
            && run[p.b].ReadClock? && run[p.b].task == run[c].task
            && GetPublicKey(sv, LastSet(registry, run, p.a), run[p.a].fault, p.q.userId) == Registered(p.key)
            && p.q.publicKey == sv.curve.toBytes(p.key)
            && WindowError(sv.drift, run[p.b].now, p.q.proof.timestamp) == None
            && StateAt(sv, registry, run, c + 1).history == s.history + [CallOf(p.q, run[p.b].now)]
  {
    hide Exec, Step, GetPublicKey, WindowError, Section, Justified;
    var s, act := StateAt(sv, registry, run, c), run[c];
    StateAtStep(sv, registry, run, c);
    if !PhaseOf(s, act.task).Timely? { ElseUntouched(sv, s, act); assert false; }
    InvAlways(sv, registry, run[..c]);
    var p := PhaseOf(s, act.task);
    PhaseIsOk(sv, registry, run[..c], act.task);
    assert run[..c][..p.a] == run[..p.a];
    RegistryIsOutside(sv, registry, run, p.a);
    EnterAdds(sv, s, act, p);
  }

  lemma EnterAdds<P(!new)>(sv: Service<P>, s: State<P>, act: Action, p: Phase<P>)
    requires act.Enter? && p == PhaseOf(s, act.task) && p.Timely?
    ensures Step(sv, s, act).history == s.history + [CallOf(p.q, p.now)]
  {
    hide Section;
  }

  lemma EmptyStart<P(!new)>(sv: Service<P>, registry: Registry, run: seq<Action>)
    ensures SectionOf(sv, registry, run, 0) == 0
  {
  }

  lemma StepAddsOneSection<P(!new)>(sv: Service<P>, s: State<P>, act: Action)
    ensures |Step(sv, s, act).history| <= |s.history| + if act.Enter? then 1 else 0
  {
    hide GetPublicKey, WindowError, Section, Verify;
    if !(act.Enter? && PhaseOf(s, act.task).Timely?) { ElseUntouched(sv, s, act); }
  }

  lemma EarlierSection<P(!new)>(sv: Service<P>, registry: Registry, run: seq<Action>, c: nat, c': nat)
    requires c <= |run| && c' <= |run| && SectionOf(sv, registry, run, c) < SectionOf(sv, registry, run, c')
    ensures c < c'
  {
    hide Exec;
    if c' <= c { HistoryGrows(sv, registry, run, c', c); }
  }

  /** Two conclusions whose sections both accepted one proof, successes among them: between
      those sections a third one read a clock past the proof's expiry, ahead of the reading of the
      later one, at a step between theirs. */
  lemma NoDoubleGrant<P(!new)>(sv: Service<P>, registry: Registry, run: seq<Action>, i: nat, j: nat)
    returns (lo: nat, m: nat, hi: nat)
    requires SaneRun(sv.drift, run)
    requires var s := Exec(sv, registry, run);
             && i < |s.concluded| && j < |s.concluded| && i != j
             && s.concluded[i].trail.AtFinish? && s.concluded[j].trail.AtFinish?
             && CallOf(s.concluded[i].q, 0) == CallOf(s.concluded[j].q, 0)
    ensures var s := Exec(sv, registry, run);
            var r, r' := s.concluded[i], s.concluded[j];
            && {lo, hi} == {r.trail.c, r'.trail.c} && lo < m < hi < |run| && run[m].Enter?
            && var n, n' := SectionOf(sv, registry, run, m), SectionOf(sv, registry, run, hi);
               && SectionOf(sv, registry, run, lo) < n < n' < |s.history|
               && s.history[n].now > s.history[n'].now
               && s.history[n].now > r.q.proof.timestamp + sv.drift
    ensures !InOrder(Exec(sv, registry, run).history)
  {
    hide Exec, Justified, SectionOf, AcceptedAt, Entered;
    var s := Exec(sv, registry, run);
    EveryConclusionIsTheGates(sv, registry, run, i);
    EveryConclusionIsTheGates(sv, registry, run, j);
    SectionBehind(sv, registry, run, s.concluded[i]);
    SectionBehind(sv, registry, run, s.concluded[j]);
    TrailsFollow(sv, registry, run, s.concluded[i]);
    TrailsFollow(sv, registry, run, s.concluded[j]);
    SectionsDiffer(sv, registry, run, i, j);
    CacheIsOfHistory(sv, registry, run);
    var c, c' := s.concluded[i].trail.c, s.concluded[j].trail.c;
    var first := SectionOf(sv, registry, run, c) < SectionOf(sv, registry, run, c');
    lo, hi := if first then c else c', if first then c' else c;
    var early, late := SectionOf(sv, registry, run, lo), SectionOf(sv, registry, run, hi);
    var n := AcceptedTwiceOnlyIfInverted(sv.drift, s.history, early, late);
    SectionAtEnd(sv, registry, run);
    m := SectionEntered(sv, registry, run, n, |run|);
    EarlierSection(sv, registry, run, lo, m);
    EarlierSection(sv, registry, run, m, hi);
  }

  lemma SectionAtEnd<P(!new)>(sv: Service<P>, registry: Registry, run: seq<Action>)
    ensures SectionOf(sv, registry, run, |run|) == |Exec(sv, registry, run).history|
  {
    StateAtEnd(sv, registry, run);
  }

  /** Different conclusions were not drawn from one step. */
  lemma EntriesDiffer<P(!new)>(sv: Service<P>, registry: Registry, run: seq<Action>, i: nat, j: nat)
    requires var s := Exec(sv, registry, run);
             && i < |s.concluded| && j < |s.concluded| && i != j
             && s.concluded[i].trail.AtFinish? && s.concluded[j].trail.AtFinish?
    ensures var s := Exec(sv, registry, run); s.concluded[i].trail.c != s.concluded[j].trail.c
  {
    hide Exec, Justified, PhaseOk;
    InvAlways(sv, registry, run);
    var s := Exec(sv, registry, run);
    EntryOf(sv, registry, run, s.concluded[i]);
    EntryOf(sv, registry, run, s.concluded[j]);
  }

  lemma EntryOf<P(!new)>(sv: Service<P>, registry: Registry, run: seq<Action>, r: Conclusion)
    requires Justified(sv, registry, run, r) && r.trail.AtFinish?
    ensures r.trail.a < r.trail.c < r.trail.Last() < |run| && run[r.trail.c] == Enter(r.task)
    ensures SectionOf(sv, registry, run, r.trail.c + 1) == SectionOf(sv, registry, run, r.trail.c) + 1
  {
    hide StateAt, TcpDecide, Section;
  }

  /** Different conclusions have different sections. */
  lemma SectionsDiffer<P(!new)>(sv: Service<P>, registry: Registry, run: seq<Action>, i: nat, j: nat)
    requires var s := Exec(sv, registry, run);
             && i < |s.concluded| && j < |s.concluded| && i != j
             && s.concluded[i].trail.AtFinish? && s.concluded[j].trail.AtFinish?
    ensures var s := Exec(sv, registry, run);
            SectionOf(sv, registry, run, s.concluded[i].trail.c) != SectionOf(sv, registry, run, s.concluded[j].trail.c)
  {
    hide Exec, Justified, StateAt;
    EveryConclusionIsTheGates(sv, registry, run, i);
    EveryConclusionIsTheGates(sv, registry, run, j);
    EntriesDiffer(sv, registry, run, i, j);
    var r, r' := Exec(sv, registry, run).concluded[i], Exec(sv, registry, run).concluded[j];
    EntryOf(sv, registry, run, r);
    EntryOf(sv, registry, run, r');
    if r.trail.c < r'.trail.c {
      HistoryGrows(sv, registry, run, r.trail.c + 1, r'.trail.c);
    } else {
      HistoryGrows(sv, registry, run, r'.trail.c + 1, r.trail.c);
    }
  }

  /** Bounded inversion over runs: when no section before a request's own read a clock more than
      skew ahead of it, a proof that was accepted before and whose age is at most the tolerance
      minus skew is refused as a replay. */
  lemma BoundedInversionAlways<P(!new)>(sv: Service<P>, registry: Registry, run: seq<Action>, i: nat, j: nat, skew: nat)
    requires SaneRun(sv.drift, run)
    requires var s := Exec(sv, registry, run);
             && i < |s.concluded| && j < |s.concluded|
             && s.concluded[i].trail.AtFinish? && (s.concluded[j].trail.AtEnter? || s.concluded[j].trail.AtFinish?)
             && CallOf(s.concluded[i].q, 0) == CallOf(s.concluded[j].q, 0)
    requires var s := Exec(sv, registry, run);
             var n := SectionOf(sv, registry, run, s.concluded[i].trail.c);
             var n' := SectionOf(sv, registry, run, s.concluded[j].trail.c);
             && n < n' < |s.history|
             && (forall m :: 0 <= m < n' ==> s.history[m].now <= s.history[n'].now + skew)
             && s.history[n'].now - s.history[n'].ts <= sv.drift - skew
    ensures Exec(sv, registry, run).concluded[j].decision == Decided(false, ReplayRefused(ReplayDetected))
  {
    hide Exec, Justified, SectionOf, Entered;
    var s := Exec(sv, registry, run);
    var r, r' := s.concluded[i], s.concluded[j];
    EveryConclusionIsTheGates(sv, registry, run, i);
    EveryConclusionIsTheGates(sv, registry, run, j);
    SectionBehind(sv, registry, run, r);
    SectionBehind(sv, registry, run, r');
    CacheIsOfHistory(sv, registry, run);
    var n, n' := SectionOf(sv, registry, run, r.trail.c), SectionOf(sv, registry, run, r'.trail.c);
    assert s.history[..n'][..n] == s.history[..n];
    BoundedInversionSafe(sv.drift, s.history[..n'], n, s.history[n'], skew);
    assert !r'.trail.AtFinish?;
    EnterRefuses(sv, registry, run, r');
  }

  lemma EnterRefuses<P(!new)>(sv: Service<P>, registry: Registry, run: seq<Action>, r: Conclusion)
    requires Justified(sv, registry, run, r) && r.trail.AtEnter?
    ensures r.decision == Decided(false, ReplayRefused(ReplayDetected))
  {
    hide StateAt, TcpDecide, Section;
  }

  /** Refusals as a replay are genuine: a request refused at its critical section met a live entry
      for its nonce there, left by an earlier section that accepted that user and nonce. */
  lemma ReplayRefusalsAreGenuine<P(!new)>(sv: Service<P>, registry: Registry, run: seq<Action>, i: nat) returns (n: nat)
    requires SaneRun(sv.drift, run) && i < |Exec(sv, registry, run).concluded|
    requires Exec(sv, registry, run).concluded[i].trail.AtEnter?
    ensures var s := Exec(sv, registry, run);
            var r := s.concluded[i];
            && r.decision == Decided(false, ReplayRefused(ReplayDetected))
            && r.trail.b < |run| && run[r.trail.b].ReadClock?
            && n < SectionOf(sv, registry, run, r.trail.c) < |s.history|
            && AcceptedAt(sv.drift, s.history, n)
            && s.history[n].key == (r.q.userId, r.q.proof.nonce)
            && s.history[n].ts >= run[r.trail.b].now - sv.drift
  {
    hide Exec, StateAt, GetPublicKey, TcpDecide, Section, SectionOf, AcceptedAt, CacheAfter, EnteredAt;
    EveryConclusionIsTheGates(sv, registry, run, i);
    var s := Exec(sv, registry, run);
    var r := s.concluded[i];
    var sc := SceneBehind(sv, registry, run, r.trail);
    assert SceneOf(sv, registry, run, r.trail, sc);
    DenialsExactly(sv, sc, r.q);
    SectionBehind(sv, registry, run, r);
    CacheBefore(sv, registry, run, r.trail.c);
    CacheIsOfHistory(sv, registry, run);
    var h := s.history[..SectionOf(sv, registry, run, r.trail.c)];
    n := CacheHoldsOnlySurvivors(sv.drift, h, (r.q.userId, r.q.proof.nonce));
    AcceptedInPrefix(sv.drift, s.history, |h|, n);
  }

  lemma AcceptedInPrefix(d: i64, h: seq<Call>, k: nat, n: nat)
    requires n < k <= |h|
    ensures AcceptedAt(d, h[..k], n) == AcceptedAt(d, h, n)
  {
    assert h[..k][..n] == h[..n];
  }

  /** After every run the cache is no larger than the number of acceptances of the last two
      windows before its last critical section, whatever the clocks read. */
  lemma MemoryBoundAlways<P(!new)>(sv: Service<P>, registry: Registry, run: seq<Action>)
    requires SaneRun(sv.drift, run) && Exec(sv, registry, run).history != []
    ensures var s := Exec(sv, registry, run); |s.cache| <= |RecentAcceptances(sv.drift, s.history)|
  {
    hide Exec;
    CacheIsOfHistory(sv, registry, run);
    MemoryBound(sv.drift, Exec(sv, registry, run).history);
  }

  // ----- Progress -----

  /** Moving a task, concluded or not, leaves the others where they are. */
  predicate OnlyMoves<P(!new, ==)>(s: State<P>, s': State<P>, task: nat) {
    forall t: nat :: t in s.tasks.Keys + s'.tasks.Keys && t != task ==> PhaseOf(s', t) == PhaseOf(s, t)
  }

  lemma LookUpOnlyMoves<P(!new)>(sv: Service<P>, s: State<P>, task: nat, q: AuthRequest, fault: Option<Text>)
    ensures OnlyMoves(s, LookUpStep(sv, s, task, q, fault), task)
  {
    hide GetPublicKey;
  }

  lemma ClockOnlyMoves<P(!new)>(sv: Service<P>, s: State<P>, task: nat, now: i64, p: Phase<P>)
    requires p.Named?
    ensures OnlyMoves(s, ClockStep(sv, s, task, now, p), task)
  {
    hide WindowError;
  }

  lemma EnterOnlyMoves<P(!new)>(sv: Service<P>, s: State<P>, task: nat, p: Phase<P>)
    requires p.Timely?
    ensures OnlyMoves(s, EnterStep(sv, s, task, p), task)
  {
    hide Section;
  }

  /** A step of another task, or a change of the registry, leaves a task's phase alone. */
  lemma OthersWait<P(!new)>(sv: Service<P>, s: State<P>, task: nat, act: Action)
    requires act.SetRegistry? || act.task != task
    ensures PhaseOf(Step(sv, s, act), task) == PhaseOf(s, task)
  {
    hide LookUpStep, ClockStep, EnterStep, Verify;
    match act
    case SetRegistry(_) =>
    case LookUp(t, q, fault) => LookUpOnlyMoves(sv, s, t, q, fault);
    case ReadClock(t, now) => if PhaseOf(s, t).Named? { ClockOnlyMoves(sv, s, t, now, PhaseOf(s, t)); }
    case Enter(t) => if PhaseOf(s, t).Timely? { EnterOnlyMoves(sv, s, t, PhaseOf(s, t)); }
    case Finish(t) =>
  }

  function Stage<P>(p: Phase<P>): nat {
    match p
    case Idle => 0
    case Named(_, _, _) => 1
    case Timely(_, _, _, _, _) => 2
    case Recorded(_, _, _, _, _) => 3
  }

  predicate Concerns(r: Conclusion, task: nat, q: AuthRequest, a: nat) {
    r.task == task && r.q == q && r.trail.a == a
  }

  predicate IsConcluded<P>(s: State<P>, task: nat, q: AuthRequest, a: nat) {
    exists i :: 0 <= i < |s.concluded| && Concerns(s.concluded[i], task, q, a)
  }

  /** The request taken up at a is concluded, or its task is n stages on with it. */
  predicate Underway<P>(s: State<P>, task: nat, q: AuthRequest, a: nat, n: nat) {
    || IsConcluded(s, task, q, a)
    || (var p := PhaseOf(s, task); !p.Idle? && p.q == q && p.a == a && n <= Stage(p))
  }

  lemma EnterGrows<P(!new)>(sv: Service<P>, s: State<P>, task: nat, p: Phase<P>)
    requires p.Timely?
    ensures s.concluded <= EnterStep(sv, s, task, p).concluded
  {
    hide Section;
  }

  /** Conclusions are only ever added, at the end. */
  lemma ConcludedGrows<P(!new)>(sv: Service<P>, s: State<P>, act: Action)
    ensures s.concluded <= Step(sv, s, act).concluded
  {
    hide GetPublicKey, WindowError, EnterStep, Verify, Move, Conclude;
    MovesOnly<P>();
    if act.Enter? && PhaseOf(s, act.task).Timely? { EnterGrows(sv, s, act.task, PhaseOf(s, act.task)); }
  }

  lemma StaysConcluded<P>(s: State<P>, s': State<P>, task: nat, q: AuthRequest, a: nat)
    requires s.concluded <= s'.concluded && IsConcluded(s, task, q, a)
    ensures IsConcluded(s', task, q, a)
  {
    var i :| 0 <= i < |s.concluded| && Concerns(s.concluded[i], task, q, a);
    assert s'.concluded[i] == s.concluded[i];
  }

  lemma ConcludeConcludes<P>(s: State<P>, task: nat, q: AuthRequest, decision: Decision, trail: Trail)
    ensures IsConcluded(Conclude(s, task, q, decision, trail), task, q, trail.a)
  {
    var s' := Conclude(s, task, q, decision, trail);
    assert s'.concluded[|s.concluded|] == Conclusion(task, q, decision, trail);
  }

  /** How far a step of the task itself brings its request. */
  function After(act: Action, n: nat): nat {
    if act.ReadClock? && n == 1 then 2
    else if act.Enter? && n == 2 then 3
    else if act.Finish? && n == 3 then 4
    else n
  }

  lemma ClockAdvances<P(!new)>(sv: Service<P>, s: State<P>, task: nat, now: i64)
    requires PhaseOf(s, task).Named?
    ensures var p := PhaseOf(s, task); Underway(ClockStep(sv, s, task, now, p), task, p.q, p.a, 2)
  {
    hide WindowError, IsConcluded, Conclude;
    var p := PhaseOf(s, task);
    match WindowError(sv.drift, now, p.q.proof.timestamp)
    case Some(e) => ConcludeConcludes(s, task, p.q, Decided(false, ReplayRefused(e)), AtClock(p.a, s.time));
    case None =>
  }

  lemma EnterAdvances<P(!new)>(sv: Service<P>, s: State<P>, task: nat)
    requires PhaseOf(s, task).Timely?
    ensures var p := PhaseOf(s, task); Underway(EnterStep(sv, s, task, p), task, p.q, p.a, 3)
  {
    hide Section, IsConcluded, Conclude;
    var p := PhaseOf(s, task);
    var (cache, accepted) := Section(sv.drift, s.cache, CallOf(p.q, p.now));
    var s' := s.(cache := cache, history := s.history + [CallOf(p.q, p.now)]);
    if !accepted {
      ConcludeConcludes(s', task, p.q, Decided(false, ReplayRefused(ReplayDetected)), AtEnter(p.a, p.b, s.time));
    }
  }

  lemma FinishConcludes<P(!new)>(sv: Service<P>, s: State<P>, task: nat)
    requires PhaseOf(s, task).Recorded?
    ensures var p := PhaseOf(s, task); IsConcluded(FinishStep(sv, s, task, p), task, p.q, p.a)
  {
    hide Verify, IsConcluded, Conclude;
    var p := PhaseOf(s, task);
    var decision := VerifyDecision(Verify(sv.curve, p.key, p.q.proof));
    ConcludeConcludes(s, task, p.q, decision, AtFinish(p.a, p.b, p.c, s.time));
  }

  lemma LookUpStarts<P(!new)>(sv: Service<P>, s: State<P>, task: nat, q: AuthRequest, fault: Option<Text>)
    requires PhaseOf(s, task).Idle?
    ensures Underway(LookUpStep(sv, s, task, q, fault), task, q, s.time, 1)
  {
    hide GetPublicKey, IsConcluded, Conclude;
    match GetPublicKey(sv, s.registry, fault, q.userId)
    case Unknown => ConcludeConcludes(s, task, q, Decided(false, NotRegistered), AtLookUp(s.time));
    case StorageError(detail) => ConcludeConcludes(s, task, q, Decided(false, StorageFailed(detail)), AtLookUp(s.time));
    case Registered(pk) =>
      if q.publicKey != sv.curve.toBytes(pk) {
        ConcludeConcludes(s, task, q, Decided(false, KeyMismatch), AtLookUp(s.time));
      }
  }

  /** A request never falls back, and its task's own next step brings it on. */
  lemma StepLeadsOn<P(!new)>(sv: Service<P>, s: State<P>, act: Action, task: nat, q: AuthRequest, a: nat, n: nat)
    requires n > 0 && Underway(s, task, q, a, n)
    ensures Underway(Step(sv, s, act), task, q, a, if act.SetRegistry? || act.task != task then n else After(act, n))
  {
    hide IsConcluded, ClockStep, EnterStep, FinishStep, LookUpStep;
    if IsConcluded(s, task, q, a) {
      ConcludedGrows(sv, s, act);
      StaysConcluded(s, Step(sv, s, act), task, q, a);
    } else if act.SetRegistry? || act.task != task {
      OthersWait(sv, s, task, act);
    } else {
      var p := PhaseOf(s, task);
      if act.ReadClock? && p.Named? { ClockAdvances(sv, s, task, act.now); }
      if act.Enter? && p.Timely? { EnterAdvances(sv, s, task); }
      if act.Finish? && p.Recorded? { FinishConcludes(sv, s, task); }
      TimeAside(sv, s, act, task, q, a);
    }
  }

  /** The count of steps plays no part in how far a request is. */
  lemma TimeAside<P(!new)>(sv: Service<P>, s: State<P>, act: Action, task: nat, q: AuthRequest, a: nat)
    ensures forall n: nat :: Underway(Step(sv, s, act), task, q, a, n) <==> Underway(Effect(sv, s, act), task, q, a, n)
  {
    hide Effect;
  }

  lemma {:induction false} NeverFallsBack<P(!new)>(sv: Service<P>, registry: Registry, run: seq<Action>, task: nat,
                                                   q: AuthRequest, a: nat, n: nat, k: nat, m: nat)
    requires k <= m <= |run| && n > 0 && Underway(StateAt(sv, registry, run, k), task, q, a, n)
    ensures Underway(StateAt(sv, registry, run, m), task, q, a, n)
    decreases m
  {
    hide StateAt, Step, Underway;
    if k < m {
      NeverFallsBack(sv, registry, run, task, q, a, n, k, m - 1);
      StateAtStep(sv, registry, run, m - 1);
      StepLeadsOn(sv, StateAt(sv, registry, run, m - 1), run[m - 1], task, q, a, n);
      AtLeast(StateAt(sv, registry, run, m), task, q, a, n, After(run[m - 1], n));
    }
  }

  lemma AtLeast<P(!new)>(s: State<P>, task: nat, q: AuthRequest, a: nat, n: nat, n': nat)
    requires n <= n'
    ensures Underway(s, task, q, a, n') ==> Underway(s, task, q, a, n)
  {
    hide IsConcluded;
  }

  lemma OwnStep<P(!new)>(sv: Service<P>, registry: Registry, run: seq<Action>, task: nat, q: AuthRequest, a: nat,
                         n: nat, k: nat, m: nat)
    requires k <= m < |run| && n > 0 && Underway(StateAt(sv, registry, run, k), task, q, a, n)
    requires !run[m].SetRegistry? && run[m].task == task
    ensures Underway(StateAt(sv, registry, run, m + 1), task, q, a, After(run[m], n))
  {
    hide StateAt, Step, Underway;
    NeverFallsBack(sv, registry, run, task, q, a, n, k, m);
    StateAtStep(sv, registry, run, m);
    StepLeadsOn(sv, StateAt(sv, registry, run, m), run[m], task, q, a, n);
  }

  /** Every request is concluded. However the steps of other tasks and changes of the registry come
      between, a request that an idle task takes up at a has a conclusion of its own once the
      task has read the clock, entered and finished. */
  lemma EveryRequestConcluded<P(!new)>(sv: Service<P>, registry: Registry, run: seq<Action>, a: nat, b: nat, c: nat,
                                       e: nat) returns (i: nat)
    requires a < b < c < e < |run| && run[a].LookUp? && PhaseOf(StateAt(sv, registry, run, a), run[a].task).Idle?
    requires run[b].ReadClock? && run[b].task == run[a].task
    requires run[c] == Enter(run[a].task) && run[e] == Finish(run[a].task)
    ensures var s := Exec(sv, registry, run);
            && i < |s.concluded| && s.concluded[i].task == run[a].task && s.concluded[i].q == run[a].q
            && s.concluded[i].trail.a == a
            && Justified(sv, registry, run, s.concluded[i])
    ensures var s := Exec(sv, registry, run);
            forall j :: 0 <= j < |s.concluded| && s.concluded[j].trail.a == a ==> j == i
  {
    hide Exec, StateAt, Step, Underway, Justified;
    var task, q := run[a].task, run[a].q;
    TakenUp(sv, registry, run, a);
    OwnStep(sv, registry, run, task, q, a, 1, a + 1, b);
    OwnStep(sv, registry, run, task, q, a, 2, b + 1, c);
    OwnStep(sv, registry, run, task, q, a, 3, c + 1, e);
    NeverFallsBack(sv, registry, run, task, q, a, 4, e + 1, |run|);
    StateAtEnd(sv, registry, run);
    var s := Exec(sv, registry, run);
    FourStagesConclude(s, task, q, a);
    i :| i < |s.concluded| && Concerns(s.concluded[i], task, q, a);
    EveryConclusionIsTheGates(sv, registry, run, i);
    forall j | 0 <= j < |s.concluded| && s.concluded[j].trail.a == a ensures j == i {
      ConcludedOnce(sv, registry, run, i, j);
    }
  }

  lemma TakenUp<P(!new)>(sv: Service<P>, registry: Registry, run: seq<Action>, a: nat)
    requires a < |run| && run[a].LookUp? && PhaseOf(StateAt(sv, registry, run, a), run[a].task).Idle?
    ensures Underway(StateAt(sv, registry, run, a + 1), run[a].task, run[a].q, a, 1)
  {
    hide Exec, LookUpStep, IsConcluded;
    var s := StateAt(sv, registry, run, a);
    StateAtStep(sv, registry, run, a);
    StepsTaken(sv, registry, run, a);
    LookUpStarts(sv, s, run[a].task, run[a].q, run[a].fault);
    TimeAside(sv, s, run[a], run[a].task, run[a].q, a);
  }

  lemma StepsTaken<P(!new)>(sv: Service<P>, registry: Registry, run: seq<Action>, k: nat)
    requires k <= |run|
    ensures StateAt(sv, registry, run, k).time == k
  {
    hide Exec, Inv;
    InvAlways(sv, registry, run[..k]);
    TimeIsLength(sv, registry, run[..k]);
  }

  lemma FourStagesConclude<P(!new)>(s: State<P>, task: nat, q: AuthRequest, a: nat)
    requires Underway(s, task, q, a, 4)
    ensures IsConcluded(s, task, q, a)
  {
    hide IsConcluded;
  }
}
