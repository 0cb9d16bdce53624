/** A task of a run seen from its client: the schedule of moments that its connection runs under
    exists, and is made of the registries, readings and caches of the task's own steps. */
module Sessions {
  import opened Bytes
  import opened Protocol
  import opened Wire
  import opened Framing
  import opened Messages
  import opened Gate
  import opened Connection
  import opened Interleaving

  /** The conclusions of a task, in the order in which it drew them. */
  function Own(concluded: seq<Conclusion>, task: nat): seq<Conclusion> {
    if concluded == [] then []
    else
      var n := |concluded| - 1;
      Own(concluded[..n], task) + if concluded[n].task == task then [concluded[n]] else []
  }

  function Requests(own: seq<Conclusion>): seq<AuthRequest> {
    seq(|own|, j requires 0 <= j < |own| => own[j].q)
  }

  lemma {:induction false} OwnExact(concluded: seq<Conclusion>, task: nat)
    ensures forall r :: r in Own(concluded, task) <==> r in concluded && r.task == task
  {
    if concluded != [] {
      var n := |concluded| - 1;
      OwnExact(concluded[..n], task);
      assert concluded == concluded[..n] + [concluded[n]];
    }
  }

  predicate OneByOne(own: seq<Conclusion>) {
    forall i, j :: 0 <= i < j < |own| ==> own[i].trail.Last() < own[j].trail.a
  }

  lemma {:induction false} OwnOneByOne(concluded: seq<Conclusion>, task: nat)
    requires forall i, j :: 0 <= i < j < |concluded| && concluded[i].task == concluded[j].task ==>
               concluded[i].trail.Last() < concluded[j].trail.a
    ensures OneByOne(Own(concluded, task))
  {
    hide Trail.Last;
    if concluded != [] {
      var n := |concluded| - 1;
      var front := Own(concluded[..n], task);
      OwnOneByOne(concluded[..n], task);
      OwnExact(concluded[..n], task);
      forall i | 0 <= i < |front| && concluded[n].task == task ensures front[i].trail.Last() < concluded[n].trail.a {
        assert front[i] in concluded[..n];
        var m :| 0 <= m < n && concluded[m] == front[i];
      }
    }
  }

  /** The scene of a trail; what its steps did not reach is taken from the state at its end. */
  function SceneAlong<P(!new, ==)>(sv: Service<P>, registry: Registry, run: seq<Action>, trail: Trail): Scene
    requires trail.a < |run| && run[trail.a].LookUp? && trail.Last() < |run|
    requires !trail.AtLookUp? ==> trail.b < |run| && run[trail.b].ReadClock?
    requires trail.AtEnter? || trail.AtFinish? ==> trail.c < |run|
  {
    Scene(
      StateAt(sv, registry, run, trail.a).registry,
      run[trail.a].fault,
      if trail.AtLookUp? then 0 else run[trail.b].now,
      StateAt(sv, registry, run, if trail.AtFinish? then trail.c else trail.Last()).cache)
  }

  /** A conclusion that is a reply, within the frame limit, while the link is up. */
  predicate GoesOut(r: Conclusion, linkUp: bool) {
    r.decision.Decided? && FitsFrame(TcpResponse(r.q.userId, r.decision)) && linkUp
  }

  function RepliesOf(own: seq<Conclusion>, link: nat -> bool, k: nat): seq<AuthResponse>
    requires k <= |own| && forall j :: 0 <= j < k ==> GoesOut(own[j], link(j))
  {
    seq(k, j requires 0 <= j < k =>
      assert GoesOut(own[j], link(j));
      TcpResponse(own[j].q.userId, own[j].decision))
  }

  /** What the client of a task sees of its conclusions: the replies up to the first that is a
      panic or cannot be sent. */
  ghost predicate Shows(own: seq<Conclusion>, link: nat -> bool, s: Session) {
    exists k: nat ::
      && k <= |own| && (forall j :: 0 <= j < k ==> GoesOut(own[j], link(j)))
      && (k < |own| ==> !GoesOut(own[k], link(k)))
      && s == Session(RepliesOf(own, link, k),
                      if k == |own| then Closed else if own[k].decision.Crash? then TaskPanicked else SendFailed)
  }

  /** The moments of a schedule are those of the task's conclusions, in turn. */
  ghost predicate Follows<P(!new)>(sv: Service<P>, registry: Registry, run: seq<Action>, task: nat,
                                   own: seq<Conclusion>, link: nat -> bool, env: nat -> Moment) {
    forall j :: 0 <= j < |own| ==>
      && Taken(run, task, own[j].q, own[j].trail)
      && SceneOf(sv, registry, run, own[j].trail, env(j).scene)
      && env(j).linkUp == link(j)
      && TcpDecide(sv, env(j).scene, own[j].q).1 == own[j].decision
  }

  lemma ConclusionHasScene<P(!new)>(sv: Service<P>, registry: Registry, run: seq<Action>, r: Conclusion)
    returns (sc: Scene)
    requires Justified(sv, registry, run, r)
    ensures Taken(run, r.task, r.q, r.trail) && SceneOf(sv, registry, run, r.trail, sc)
    ensures TcpDecide(sv, sc, r.q).1 == r.decision
  {
    hide StateAt, TcpDecide, EnteredAt, Identified;
    sc := SceneAlong(sv, registry, run, r.trail);
    assert SceneOf(sv, registry, run, r.trail, sc);
  }

  lemma {:induction false} ScheduleExists<P(!new)>(sv: Service<P>, registry: Registry, run: seq<Action>, task: nat,
                                                   own: seq<Conclusion>, link: nat -> bool) returns (env: nat -> Moment)
    requires forall j :: 0 <= j < |own| ==> Justified(sv, registry, run, own[j]) && own[j].task == task
    ensures Follows(sv, registry, run, task, own, link, env)
  {
    hide Justified, Taken, SceneOf, TcpDecide;
    if own == [] {
      env := (j: nat) => Moment(Scene(map[], None, 0, map[]), link(j));
    } else {
      var n := |own| - 1;
      var front := ScheduleExists(sv, registry, run, task, own[..n], link);
      var sc := ConclusionHasScene(sv, registry, run, own[n]);
      env := (j: nat) => if j == n then Moment(sc, link(j)) else front(j);
      forall j | 0 <= j < n ensures own[..n][j] == own[j] && env(j) == front(j) {
      }
    }
  }

  lemma ServeShows<P(!new)>(sv: Service<P>, registry: Registry, run: seq<Action>, task: nat,
                            own: seq<Conclusion>, link: nat -> bool, env: nat -> Moment)
    requires Follows(sv, registry, run, task, own, link, env)
    ensures Shows(own, link, Serve(sv, env, 0, Requests(own), None))
  {
    hide Taken, SceneOf, TcpDecide, FitsFrame, Serve;
    var k := 0;
    while k < |own| && GoesOut(own[k], link(k))
      invariant k <= |own| && forall j :: 0 <= j < k ==> GoesOut(own[j], link(j))
    {
      k := k + 1;
    }
    var items := Requests(own);
    assert forall j :: 0 <= j < |own| ==> (Answered(sv, env(j), items[j]) <==> GoesOut(own[j], link(j)));
    OneReplyPerRequest(sv, env, items, None, k);
    assert Connection.Replies(sv, env, items, k) == RepliesOf(own, link, k);
  }

  /** Every task of every run is a connection. Whatever else is interleaved, and whether or not its
      link is up, there is a schedule made of the registries, readings and caches at the task's
      own steps under which the connection loop, given the requests the task concluded, sends
      exactly the replies of its conclusions, in order, up to the first that is a panic or
      cannot be sent. */
  lemma TaskIsAConnection<P(!new)>(sv: Service<P>, registry: Registry, run: seq<Action>, task: nat, link: nat -> bool)
    returns (env: nat -> Moment)
    ensures var own := Own(Exec(sv, registry, run).concluded, task);
            && OneByOne(own)
            && (forall r :: r in own <==> r in Exec(sv, registry, run).concluded && r.task == task)
            && Follows(sv, registry, run, task, own, link, env)
            && Shows(own, link, Serve(sv, env, 0, Requests(own), None))
  {
    hide Exec, Justified, PhaseOk, Follows, Shows, Serve, Own, OneByOne;
    InvAlways(sv, registry, run);
    var concluded := Exec(sv, registry, run).concluded;
    OwnExact(concluded, task);
    OwnOneByOne(concluded, task);
    var own := Own(concluded, task);
    forall j | 0 <= j < |own| ensures Justified(sv, registry, run, own[j]) && own[j].task == task {
      assert own[j] in own;
    }
    env := ScheduleExists(sv, registry, run, task, own, link);
    ServeShows(sv, registry, run, task, own, link, env);
  }

  /** The same over bytes: a client whose framed requests the task took up, cut up anyhow. */
  lemma TaskServesBytes<P(!new)>(sv: Service<P>, registry: Registry, run: seq<Action>, task: nat, link: nat -> bool,
                                 chunks: seq<seq<byte>>) returns (env: nat -> Moment)
    requires var items := Requests(Own(Exec(sv, registry, run).concluded, task));
             && (forall q :: q in items ==> RequestFits(sv.utf8, q) && |PrintRequest(q)| <= MAX_FRAME_SIZE)
             && Concat(chunks) == Frames(Payloads(RequestPrinter(), items))
    ensures var own := Own(Exec(sv, registry, run).concluded, task);
            && Follows(sv, registry, run, task, own, link, env)
            && Shows(own, link, ServeBytes(sv, env, 0, Concat(chunks)))
  {
    hide Exec, Follows, Shows, Serve, Own, Requests, RequestFits, PrintRequest, Drain, Feed, Frames, Concat;
    env := TaskIsAConnection(sv, registry, run, task, link);
    RequestsArrive(sv.utf8, Requests(Own(Exec(sv, registry, run).concluded, task)), chunks);
    FragmentationIndependent(MAX_FRAME_SIZE, RequestReader(sv.utf8), chunks);
  }
}
