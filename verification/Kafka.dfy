/** The Kafka transport: the worker that consumes requests by offset (src/kafka/verifier.rs) and
    the client that scans for its response (src/kafka/prover.rs). A topic partition is an
    append-only log with increasing offsets; what a consumer meets from one poll to the next is
    given by an arbitrary script. */
module Kafka {
  import opened Bytes
  import opened Protocol
  import opened Wire
  import opened Replay
  import opened Schnorr
  import opened Messages
  import opened Gate

  datatype Entry = Entry(offset: nat, value: Option<seq<byte>>)

  predicate Increasing(log: seq<Entry>) {
    forall i, j :: 0 <= i < j < |log| ==> log[i].offset < log[j].offset
  }

  /** How many records lie below an offset. */
  function CountBelow(log: seq<Entry>, offset: nat): (n: nat)
    ensures n <= |log|
  {
    if log == [] then 0
    else CountBelow(log[..|log| - 1], offset) + if log[|log| - 1].offset < offset then 1 else 0
  }

  lemma {:induction false} BelowExactly(log: seq<Entry>, offset: nat)
    requires Increasing(log)
    ensures forall i :: 0 <= i < |log| ==> (i < CountBelow(log, offset) <==> log[i].offset < offset)
  {
    if log != [] {
      var n := |log| - 1;
      BelowExactly(log[..n], offset);
      assert forall i :: 0 <= i < n ==> log[..n][i] == log[i] && log[i].offset < log[n].offset;
    }
  }

  /** There is one such count. */
  lemma CountIs(log: seq<Entry>, offset: nat, n: nat)
    requires Increasing(log) && n <= |log|
    requires n > 0 ==> log[n - 1].offset < offset
    requires n < |log| ==> log[n].offset >= offset
    ensures CountBelow(log, offset) == n
  {
    BelowExactly(log, offset);
  }

  /** The records from one offset up to another, in order. */
  function Span(log: seq<Entry>, from: nat, to: nat): seq<Entry> {
    var a, b := CountBelow(log, from), CountBelow(log, to);
    if a <= b then log[a..b] else []
  }

  lemma SpanIncreasing(log: seq<Entry>, from: nat, to: nat)
    requires Increasing(log)
    ensures Increasing(Span(log, from, to))
  {
    hide CountBelow;
    var a, b := CountBelow(log, from), CountBelow(log, to);
    if a <= b {
      assert forall i :: 0 <= i < b - a ==> log[a..b][i] == log[a + i];
    }
  }

  /** A span holds exactly the records of the log with offsets in its range, in order. */
  lemma SpanExact(log: seq<Entry>, from: nat, to: nat, e: Entry)
    requires Increasing(log)
    ensures e in Span(log, from, to) <==> e in log && from <= e.offset < to
    ensures Increasing(Span(log, from, to))
  {
    hide CountBelow, Increasing;
    SpanIncreasing(log, from, to);
    BelowExactly(log, from);
    BelowExactly(log, to);
    if e in log && from <= e.offset < to {
      var i :| 0 <= i < |log| && log[i] == e;
      assert CountBelow(log, from) <= i < CountBelow(log, to);
      assert Span(log, from, to)[i - CountBelow(log, from)] == e;
    }
  }

  /** A fetch returns consecutive records from the requested offset on. */
  function Fetch(log: seq<Entry>, offset: nat, count: nat): seq<Entry> {
    var a := CountBelow(log, offset);
    log[a..if a + count <= |log| then a + count else |log|]
  }

  /** One turn of a consumer's loop. A cancelled or failed fetch returns nothing. */
  datatype Poll = Stop | Nothing | Fetched(log: seq<Entry>, count: nat)

  /** The log only grows from poll to poll. */
  predicate Growing(log: seq<Entry>, polls: seq<Poll>)
    decreases |polls|
  {
    Increasing(log) &&
    (polls == [] ||
     match polls[0]
     case Fetched(longer, _) => log <= longer && Growing(longer, polls[1..])
     case _ => Growing(log, polls[1..]))
  }

  /** The log as last seen. */
  function LastLog(log: seq<Entry>, polls: seq<Poll>): seq<Entry>
    decreases |polls|
  {
    if polls == [] then log else LastLog(if polls[0].Fetched? then polls[0].log else log, polls[1..])
  }

  /** The next record to read is the first at or after the offset: nothing before it is unread. */
  predicate UpTo(log: seq<Entry>, start: nat, offset: nat) {
    start <= offset &&
    (offset == start || (CountBelow(log, offset) > 0 && log[CountBelow(log, offset) - 1].offset + 1 == offset))
  }

  /** A consumer that began at start has read exactly these records and will go on at offset. */
  predicate HasRead(log: seq<Entry>, start: nat, offset: nat, read: seq<Entry>) {
    Increasing(log) && UpTo(log, start, offset) && read == Span(log, start, offset)
  }

  lemma NothingRead(log: seq<Entry>, start: nat)
    requires Increasing(log)
    ensures HasRead(log, start, start, [])
  {
  }

  /** Records appended later do not fall into what was already read. */
  lemma SpanGrows(log: seq<Entry>, longer: seq<Entry>, start: nat, offset: nat, read: seq<Entry>)
    requires log <= longer && Increasing(longer) && HasRead(log, start, offset, read)
    ensures HasRead(longer, start, offset, read)
  {
    hide CountBelow;
    if offset != start {
      var a, b := CountBelow(log, start), CountBelow(log, offset);
      BelowExactly(log, start);
      assert forall i :: b <= i < |longer| ==> longer[b - 1].offset < longer[i].offset;
      CountIs(longer, offset, b);
      CountSame(log, longer, start, b);
      assert longer[a..b] == log[a..b];
    } else {
      assert Span(log, start, offset) == [] == Span(longer, start, offset);
    }
  }

  lemma CountSame(log: seq<Entry>, longer: seq<Entry>, start: nat, b: nat)
    requires log <= longer && Increasing(longer)
    requires 0 < b <= |log| && start <= log[b - 1].offset
    ensures CountBelow(longer, start) == CountBelow(log, start) < b
  {
    assert forall i :: 0 <= i < |log| ==> log[i] == longer[i];
    BelowExactly(log, start);
    var a := CountBelow(log, start);
    CountIs(longer, start, a);
  }

  /** Reading the next record advances the offset past it and skips none. */
  lemma ReadNext(log: seq<Entry>, start: nat, offset: nat, read: seq<Entry>)
    requires HasRead(log, start, offset, read) && CountBelow(log, offset) < |log|
    ensures var e := log[CountBelow(log, offset)];
            && HasRead(log, start, e.offset + 1, read + [e])
            && CountBelow(log, e.offset + 1) == CountBelow(log, offset) + 1
  {
    var b := CountBelow(log, offset);
    BelowExactly(log, offset);
    BelowExactly(log, start);
    CountIs(log, log[b].offset + 1, b + 1);
    assert CountBelow(log, start) <= b;
  }

  // ----- What a script of polls makes a consumer read -----

  /** The polls before the consumer is stopped. */
  function Active(polls: seq<Poll>): seq<Poll> {
    if polls == [] || polls[0].Stop? then [] else [polls[0]] + Active(polls[1..])
  }

  /** How many records from start on have been fetched after these polls, if n had been before: each
      fetch brings as many more as it counts, or all there are. */
  function Reached(start: nat, n: nat, polls: seq<Poll>): nat
    decreases |polls|
  {
    if polls == [] then n
    else
      match polls[0]
      case Fetched(log, count) =>
        var left := |log| - CountBelow(log, start);
        Reached(start, if n + count <= left then n + count else left, polls[1..])
      case _ => Reached(start, n, polls[1..])
  }

  /** The first n records of a log from start on. */
  function FirstFrom(log: seq<Entry>, start: nat, n: nat): seq<Entry> {
    var a := CountBelow(log, start);
    if a + n <= |log| then log[a..a + n] else log[a..]
  }

  /** The records a script makes a consumer read, by the script alone. */
  function Due(log: seq<Entry>, start: nat, polls: seq<Poll>): seq<Entry> {
    FirstFrom(LastLog(log, polls), start, Reached(start, 0, polls))
  }

  lemma {:induction false} ActiveGrows(log: seq<Entry>, polls: seq<Poll>)
    requires Growing(log, polls)
    ensures Growing(log, Active(polls))
    decreases |polls|
  {
    if polls != [] && !polls[0].Stop? {
      ActiveGrows(if polls[0].Fetched? then polls[0].log else log, polls[1..]);
      assert Active(polls)[1..] == Active(polls[1..]);
    }
  }

  lemma CountGrows(log: seq<Entry>, longer: seq<Entry>, start: nat)
    requires log <= longer && Increasing(longer)
    ensures CountBelow(log, start) <= CountBelow(longer, start)
    ensures CountBelow(log, start) < |log| ==> CountBelow(longer, start) == CountBelow(log, start)
    ensures |log| - CountBelow(log, start) <= |longer| - CountBelow(longer, start)
  {
    assert forall i :: 0 <= i < |log| ==> log[i] == longer[i];
    BelowExactly(log, start);
    BelowExactly(longer, start);
    if CountBelow(log, start) < |log| { CountIs(longer, start, CountBelow(log, start)); }
  }

  lemma FirstFromGrows(log: seq<Entry>, longer: seq<Entry>, start: nat, n: nat, m: nat)
    requires log <= longer && Increasing(longer)
    requires n <= |log| - CountBelow(log, start) && n <= m <= |longer| - CountBelow(longer, start)
    ensures FirstFrom(log, start, n) <= FirstFrom(longer, start, m)
  {
    hide CountBelow, Increasing;
    CountGrows(log, longer, start);
    var a, b := CountBelow(log, start), CountBelow(longer, start);
    assert n > 0 ==> a == b;
    assert n > 0 ==> log[a..a + n] == longer[a..a + n];
  }

  /** Later polls leave what was read before them where it was, and only add to it. */
  lemma {:induction false} ReachedGrows(log: seq<Entry>, start: nat, n: nat, polls: seq<Poll>)
    requires Growing(log, polls) && n <= |log| - CountBelow(log, start)
    ensures var last, m := LastLog(log, polls), Reached(start, n, polls);
            && log <= last && Increasing(last)
            && n <= m <= |last| - CountBelow(last, start)
            && FirstFrom(log, start, n) <= FirstFrom(last, start, m)
    decreases |polls|
  {
    hide CountBelow, Increasing, FirstFrom;
    if polls != [] {
      match polls[0]
      case Fetched(longer, count) =>
        GrowingIncreases(longer, polls[1..]);
        CountGrows(log, longer, start);
        var left := |longer| - CountBelow(longer, start);
        var m := if n + count <= left then n + count else left;
        ReachedGrows(longer, start, m, polls[1..]);
        FirstFromGrows(log, longer, start, n, m);
      case _ => ReachedGrows(log, start, n, polls[1..]);
    } else {
      GrowingIncreases(log, polls);
    }
  }

  lemma GrowingIncreases(log: seq<Entry>, polls: seq<Poll>)
    requires Growing(log, polls)
    ensures Increasing(log)
  {
  }

  /** What has been read so far is the first of the records from start on. */
  lemma ReadIsFirst(log: seq<Entry>, start: nat, offset: nat, read: seq<Entry>)
    requires HasRead(log, start, offset, read)
    ensures CountBelow(log, offset) == CountBelow(log, start) + |read|
    ensures read == FirstFrom(log, start, |read|)
  {
    BelowExactly(log, start);
    BelowExactly(log, offset);
    if offset != start {
      var b := CountBelow(log, offset);
      assert CountBelow(log, start) <= b;
    }
  }

  /** How far one fetch of so many records brings a consumer. */
  function Fetches(log: seq<Entry>, start: nat, n: nat, count: nat): nat {
    var left := |log| - CountBelow(log, start);
    if n + count <= left then n + count else left
  }

  /** Before the end of a script no more has been read than is due, and at the end all of it. */
  lemma WithinDue(log: seq<Entry>, start: nat, polls: seq<Poll>, seen: seq<Entry>, offset: nat, read: seq<Entry>,
                  n: nat, rest: seq<Poll>)
    requires HasRead(seen, start, offset, read) && Growing(seen, rest)
    requires |read| <= n <= |seen| - CountBelow(seen, start)
    requires Reached(start, n, rest) == Reached(start, 0, polls) && LastLog(seen, rest) == LastLog(log, polls)
    ensures read <= Due(log, start, polls)
    ensures rest == [] && n == |read| ==> read == Due(log, start, polls)
  {
    hide CountBelow, Increasing, Growing, FirstFrom;
    ReadIsFirst(seen, start, offset, read);
    ReachedGrows(seen, start, n, rest);
    HasIncreasing(seen, start, offset, read);
    FirstFromGrows(seen, seen, start, |read|, n);
  }

  lemma HasIncreasing(log: seq<Entry>, start: nat, offset: nat, read: seq<Entry>)
    requires HasRead(log, start, offset, read)
    ensures Increasing(log)
  {
  }

  /** A last fetch that may return everything leaves nothing from start on unread. */
  lemma CaughtUp(log: seq<Entry>, start: nat, polls: seq<Poll>, whole: seq<Entry>, count: nat, e: Entry)
    requires Growing(log, polls + [Fetched(whole, count)]) && count >= |whole|
    ensures e in Due(log, start, polls + [Fetched(whole, count)]) <==> e in whole && e.offset >= start
  {
    hide CountBelow;
    LastPoll(log, start, 0, polls, whole, count);
    BelowExactly(whole, start);
    var a := CountBelow(whole, start);
    assert Due(log, start, polls + [Fetched(whole, count)]) == whole[a..];
    if e in whole && e.offset >= start {
      var i :| 0 <= i < |whole| && whole[i] == e;
      assert whole[a..][i - a] == e;
    }
  }

  lemma {:induction false} LastPoll(log: seq<Entry>, start: nat, n: nat, polls: seq<Poll>, whole: seq<Entry>,
                                    count: nat)
    requires Growing(log, polls + [Fetched(whole, count)]) && count >= |whole|
    ensures LastLog(log, polls + [Fetched(whole, count)]) == whole && Increasing(whole)
    ensures Reached(start, n, polls + [Fetched(whole, count)]) == |whole| - CountBelow(whole, start)
    decreases |polls|
  {
    hide CountBelow, Increasing;
    var all := polls + [Fetched(whole, count)];
    if polls == [] {
      GrowingIncreases(whole, all[1..]);
    } else {
      assert all[1..] == polls[1..] + [Fetched(whole, count)];
      match polls[0]
      case Fetched(longer, c) =>
        var left := |longer| - CountBelow(longer, start);
        LastPoll(longer, start, if n + c <= left then n + c else left, polls[1..], whole, count);
      case _ => LastPoll(log, start, n, polls[1..], whole, count);
    }
  }

  // ----- Processing one record -----

  /** What surrounds one record: the shared state it meets, the time of the reply, and whether
      the reply can be published. */
  datatype RecordMoment = RecordMoment(scene: Scene, sentAt: i64, brokerUp: bool)

  datatype RecordResult = Skipped | Unreadable | PublishFailed | WorkerPanicked | Published(response: KafkaAuthResponse)

  /** A record is JSON or, failing that, bincode. */
  function ReadRequest<P(!new, ==)>(sv: Service<P>, json: seq<byte> -> Option<KafkaAuthRequest>,
                                    b: seq<byte>): Option<KafkaAuthRequest> {
    match json(b)
    case Some(q) => Some(q)
    case None => DeserializeKafkaRequest(sv.utf8, b)
  }

  function Process<P(!new, ==)>(sv: Service<P>, json: seq<byte> -> Option<KafkaAuthRequest>, m: RecordMoment,
                                e: Entry): (Cache, RecordResult) {
    match e.value
    case None => (m.scene.cache, Skipped)
    case Some(b) =>
      match ReadRequest(sv, json, b)
      case None => (m.scene.cache, Unreadable)
      case Some(q) =>
        var (cache, a) := KafkaDecide(sv, m.scene, q);
        (cache, if a.Crash? then WorkerPanicked
                else if m.brokerUp then Published(KafkaResponse(q, a, m.sentAt))
                else PublishFailed)
  }

  function PublishedBy(result: RecordResult): seq<KafkaAuthResponse> {
    if result.Published? then [result.response] else []
  }

  /** The replies to a run of records, in order. */
  function Publications<P(!new, ==)>(sv: Service<P>, json: seq<byte> -> Option<KafkaAuthRequest>,
                                     env: nat -> RecordMoment, entries: seq<Entry>): seq<KafkaAuthResponse> {
    if entries == [] then []
    else
      var n := |entries| - 1;
      Publications(sv, json, env, entries[..n]) + PublishedBy(Process(sv, json, env(n), entries[n]).1)
  }

  // ----- A consumer on its way through a script -----

  /** What was read so far, and what the rest of the script still adds, is what the script makes due. */
  ghost predicate OnTrack(log: seq<Entry>, start: nat, script: seq<Poll>, seen: seq<Entry>, offset: nat,
                          read: seq<Entry>, rest: seq<Poll>) {
    && HasRead(seen, start, offset, read) && Growing(seen, rest)
    && Reached(start, |read|, rest) == Reached(start, 0, script)
    && LastLog(seen, rest) == LastLog(log, script)
  }

  lemma Starts(log: seq<Entry>, start: nat, script: seq<Poll>)
    requires Growing(log, script)
    ensures OnTrack(log, start, script, log, start, [], script)
  {
    hide CountBelow;
    GrowingIncreases(log, script);
    NothingRead(log, start);
  }

  lemma NextNothing(log: seq<Entry>, start: nat, script: seq<Poll>, seen: seq<Entry>, offset: nat, read: seq<Entry>,
                    poll: Poll, rest: seq<Poll>)
    requires OnTrack(log, start, script, seen, offset, read, [poll] + rest) && !poll.Fetched?
    ensures OnTrack(log, start, script, seen, offset, read, rest)
  {
    hide HasRead;
    assert ([poll] + rest)[1..] == rest;
  }

  /** A fetch shows a log that has grown, and what was read is still what was read. */
  lemma NextFetch(log: seq<Entry>, start: nat, script: seq<Poll>, seen: seq<Entry>, offset: nat, read: seq<Entry>,
                  poll: Poll, rest: seq<Poll>)
    requires OnTrack(log, start, script, seen, offset, read, [poll] + rest) && poll.Fetched?
    ensures seen <= poll.log && HasRead(poll.log, start, offset, read) && Growing(poll.log, rest)
    ensures Reached(start, Fetches(poll.log, start, |read|, poll.count), rest) == Reached(start, 0, script)
    ensures LastLog(poll.log, rest) == LastLog(log, script)
  {
    hide HasRead, CountBelow, Increasing;
    assert ([poll] + rest)[1..] == rest;
    GrowingIncreases(poll.log, rest);
    SpanGrows(seen, poll.log, start, offset, read);
  }

  /** The records of the fetch are read, or only some of them. */
  lemma AfterFetch(log: seq<Entry>, start: nat, script: seq<Poll>, seen: seq<Entry>, before: seq<Entry>, offset: nat,
                   read: seq<Entry>, count: nat, rest: seq<Poll>)
    requires HasRead(seen, start, offset, read) && Growing(seen, rest)
    requires |before| <= |seen| - CountBelow(seen, start) && |read| <= Fetches(seen, start, |before|, count)
    requires Reached(start, Fetches(seen, start, |before|, count), rest) == Reached(start, 0, script)
    requires LastLog(seen, rest) == LastLog(log, script)
    ensures read <= Due(log, start, script)
    ensures |read| == Fetches(seen, start, |before|, count) ==> OnTrack(log, start, script, seen, offset, read, rest)
  {
    hide HasRead, CountBelow, Growing, Reached, LastLog, Due;
    WithinDue(log, start, script, seen, offset, read, Fetches(seen, start, |before|, count), rest);
  }

  lemma AtTheEnd(log: seq<Entry>, start: nat, script: seq<Poll>, seen: seq<Entry>, offset: nat, read: seq<Entry>)
    requires OnTrack(log, start, script, seen, offset, read, [])
    ensures HasRead(seen, start, offset, read)
    ensures read == Due(log, start, script) && seen == LastLog(log, script)
  {
    hide HasRead, CountBelow, Due;
    ReadIsFirst(seen, start, offset, read);
    CountWithin(seen, start, offset, read);
    WithinDue(log, start, script, seen, offset, read, |read|, []);
  }

  lemma CountWithin(log: seq<Entry>, start: nat, offset: nat, read: seq<Entry>)
    requires HasRead(log, start, offset, read)
    ensures |read| <= |log| - CountBelow(log, start)
  {
  }

  lemma ActiveEnds(polls: seq<Poll>)
    ensures Active(polls[|polls|..]) == []
  {
  }

  /** A script without a stop is active to its end. */
  lemma {:induction false} ActiveIsAll(polls: seq<Poll>)
    requires Stop !in polls
    ensures Active(polls) == polls
  {
    if polls != [] { ActiveIsAll(polls[1..]); }
  }

  lemma ActiveNext(polls: seq<Poll>, n: nat)
    requires n < |polls|
    ensures Active(polls[n..]) == if polls[n].Stop? then [] else [polls[n]] + Active(polls[n + 1..])
  {
    assert polls[n..][0] == polls[n] && polls[n..][1..] == polls[n + 1..];
  }

  lemma StartOfScript<P(!new)>(sv: Service<P>, json: seq<byte> -> Option<KafkaAuthRequest>, env: nat -> RecordMoment,
                               log: seq<Entry>, start: nat, polls: seq<Poll>)
    requires Growing(log, polls)
    ensures OnTrack(log, start, Active(polls), log, start, [], Active(polls[0..]))
    ensures Publications(sv, json, env, []) == []
  {
    hide Growing;
    assert polls[0..] == polls;
    ActiveGrows(log, polls);
    Starts(log, start, Active(polls));
  }

  // ----- What the readers of the response topic are told -----

  /** A record is read as JSON; one that is not JSON, as the bincode print it starts with. */
  lemma ReadExactly<P(!new)>(sv: Service<P>, json: seq<byte> -> Option<KafkaAuthRequest>, b: seq<byte>,
                             q: KafkaAuthRequest)
    ensures ReadRequest(sv, json, b) == Some(q) <==>
            json(b) == Some(q) || (json(b) == None && KafkaRequestFits(sv.utf8, q) && PrintKafkaRequest(q) <= b)
  {
    hide KafkaRequestFits, PrintKafkaRequest;
    DeserializeKafkaExact(sv.utf8, b, q);
  }

  /** A readable record panics, or is answered where the broker takes the answer: under its own request
      id and user, with yes exactly for those who deserve it. The cache left is the one of the
      replay check, for a request that names its enrolled key, and untouched for any other. */
  lemma RecordExactly<P(!new)>(sv: Service<P>, json: seq<byte> -> Option<KafkaAuthRequest>, m: RecordMoment,
                               e: Entry, q: KafkaAuthRequest)
    requires SaneClock(sv.drift, m.scene.now)
    requires e.value.Some? && ReadRequest(sv, json, e.value.value) == Some(q)
    ensures var (cache, result) := Process(sv, json, m, e);
            var request := RequestOf(q);
            && cache == (if !Identified(sv, m.scene, request) then m.scene.cache
                         else Check(sv.drift, m.scene.cache, m.scene.now, q.userId, q.proof).0)
            && (result == WorkerPanicked <==> Panics(sv, m.scene, request))
            && (result.Published? <==> m.brokerUp && !Panics(sv, m.scene, request))
            && (result == PublishFailed <==> !m.brokerUp && !Panics(sv, m.scene, request))
            && (result.Published? ==>
                  && result.response.requestId == q.requestId && result.response.userId == q.userId
                  && result.response.timestamp == m.sentAt
                  && (result.response.success <==> Deserves(sv, m.scene, request)))
  {
    hide KafkaDecide, TcpDecide, ReadRequest, Check, Identified, Panics, Deserves, KafkaResponse;
    DecisionsAgree(sv, m.scene, RequestOf(q), q.requestId, q.timestamp);
    CacheEffect(sv, m.scene, RequestOf(q));
    CrashExactly(sv, m.scene, RequestOf(q));
    if KafkaDecide(sv, m.scene, q).1.Decided? { KafkaReplyExactly(sv, m.scene, q, m.sentAt); }
  }

  /** A record without value or with bytes nobody can read is passed over. */
  lemma PassedOverExactly<P(!new)>(sv: Service<P>, json: seq<byte> -> Option<KafkaAuthRequest>, m: RecordMoment,
                                   e: Entry)
    requires e.value == None || ReadRequest(sv, json, e.value.value) == None
    ensures Process(sv, json, m, e).0 == m.scene.cache && !Process(sv, json, m, e).1.Published?
    ensures Process(sv, json, m, e).1 == Skipped <==> e.value == None
  {
    hide KafkaDecide, ReadRequest;
  }

  lemma LastPublication<P(!new)>(sv: Service<P>, json: seq<byte> -> Option<KafkaAuthRequest>,
                                 env: nat -> RecordMoment, entries: seq<Entry>)
    requires entries != []
    ensures var n := |entries| - 1;
            var all, before := Publications(sv, json, env, entries), Publications(sv, json, env, entries[..n]);
            var result := Process(sv, json, env(n), entries[n]).1;
            && before <= all && |all| == |before| + (if result.Published? then 1 else 0)
            && (result.Published? ==> all[|before|] == result.response)
  {
    hide Process;
  }

  /** Publications hold the reply to each answered record, after those to the records before it, and
      nothing else. */
  lemma {:induction false} PublicationAt<P(!new)>(sv: Service<P>, json: seq<byte> -> Option<KafkaAuthRequest>,
                                                  env: nat -> RecordMoment, entries: seq<Entry>, i: nat)
    requires i < |entries|
    ensures var all, before := Publications(sv, json, env, entries), Publications(sv, json, env, entries[..i]);
            var result := Process(sv, json, env(i), entries[i]).1;
            && before <= Publications(sv, json, env, entries[..i + 1]) <= all
            && (result.Published? ==> |before| < |all| && all[|before|] == result.response)
            && |Publications(sv, json, env, entries[..i + 1])| == |before| + if result.Published? then 1 else 0
    decreases |entries|
  {
    hide Process, Publications, PublishedBy;
    var n := |entries| - 1;
    var front := entries[..n];
    LastPublication(sv, json, env, entries);
    if i < n {
      PublicationAt(sv, json, env, front, i);
      assert front[..i] == entries[..i] && front[..i + 1] == entries[..i + 1] && front[i] == entries[i];
    } else {
      assert entries[..i + 1] == entries;
    }
  }

  /** Every answered record has its true reply in the log of responses, in the place of its turn. */
  lemma RecordIsAnswered<P(!new)>(sv: Service<P>, json: seq<byte> -> Option<KafkaAuthRequest>, env: nat -> RecordMoment,
                                  entries: seq<Entry>, i: nat, q: KafkaAuthRequest)
    requires i < |entries| && entries[i].value.Some? && ReadRequest(sv, json, entries[i].value.value) == Some(q)
    requires SaneClock(sv.drift, env(i).scene.now) && env(i).brokerUp && !Panics(sv, env(i).scene, RequestOf(q))
    ensures var all, k := Publications(sv, json, env, entries), |Publications(sv, json, env, entries[..i])|;
            && k < |all| && all[k].requestId == q.requestId && all[k].userId == q.userId
            && (all[k].success <==> Deserves(sv, env(i).scene, RequestOf(q)))
  {
    hide Process, ReadRequest, Panics, Deserves, Publications;
    RecordExactly(sv, json, env(i), entries[i], q);
    PublicationAt(sv, json, env, entries, i);
  }

  class KafkaVerifierWorker<P(!new, ==)> {
    const sv: Service<P>
    const protector: ReplayProtector
    const json: seq<byte> -> Option<KafkaAuthRequest>
    var registry: Registry
    var responses: seq<KafkaAuthResponse>

    constructor (sv: Service<P>, protector: ReplayProtector, json: seq<byte> -> Option<KafkaAuthRequest>,
                 registry: Registry)
      requires protector.maxDriftSecs == sv.drift
      ensures Valid() && this.sv == sv && this.protector == protector && this.json == json
      ensures this.registry == registry && responses == []
    {
      this.sv, this.protector, this.json, this.registry, this.responses := sv, protector, json, registry, [];
    }

    predicate Valid() {
      protector.maxDriftSecs == sv.drift
    }

    /** Decides one record on the shared state as it stands, and publishes the reply. */
    method ProcessRecord(e: Entry, now: i64, fault: Option<Text>, sentAt: i64, brokerUp: bool)
      returns (result: RecordResult)
      requires Valid()
      modifies this`responses, protector
      ensures var met := Scene(registry, fault, now, old(protector.seenNonces));
              (protector.seenNonces, result) == Process(sv, json, RecordMoment(met, sentAt, brokerUp), e)
      ensures responses == old(responses) + PublishedBy(result)
    {
      hide Check, Verify, GetPublicKey, KafkaText;
      if e.value.None? {
        return Skipped;
      }
      var read := ReadRequest(sv, json, e.value.value);
      if read.None? {
        return Unreadable;
      }
      var q := read.value;
      var a: Decision;
      match GetPublicKey(sv, registry, fault, q.userId) {
        case Registered(pk) =>
          if q.publicKey != sv.curve.toBytes(pk) {
            a := Decided(false, KeyMismatch);
          } else {
            var outcome := protector.CheckAndRecord(now, q.userId, q.proof);
            match outcome {
              case Refused(err) => a := Decided(false, ReplayRefused(err));
              case Fresh => a := VerifyDecision(Verify(sv.curve, pk, q.proof));
            }
          }
        case Unknown => a := Decided(false, NotRegistered);
        case StorageError(detail) => a := Decided(false, StorageFailed(detail));
      }
      if a.Crash? {
        return WorkerPanicked;
      }
      if !brokerUp {
        return PublishFailed;
      }
      result := Published(KafkaResponse(q, a, sentAt));
      responses := responses + [result.response];
    }

    /** The users of the shared state other than this worker leave it as the schedule says. */
    method Interfere(sc: Scene)
      modifies this`registry, protector
      ensures registry == sc.registry && protector.seenNonces == sc.cache
    {
      registry := sc.registry;
      protector.seenNonces := sc.cache;
    }

    /** No record but perhaps the last one made the worker panic. */
    predicate PanickedAtMostLast(env: nat -> RecordMoment, processed: seq<Entry>, panicked: bool) {
      && (panicked ==> processed != [])
      && forall i :: 0 <= i < |processed| ==>
           (Process(sv, json, env(i), processed[i]).1 == WorkerPanicked <==> panicked && i == |processed| - 1)
    }

    lemma PanicStep(env: nat -> RecordMoment, processed: seq<Entry>, e: Entry)
      requires PanickedAtMostLast(env, processed, false)
      ensures PanickedAtMostLast(env, processed + [e], Process(sv, json, env(|processed|), e).1 == WorkerPanicked)
    {
      hide Process;
      var after := processed + [e];
      forall i | 0 <= i < |processed| ensures Process(sv, json, env(i), after[i]).1 != WorkerPanicked {
        assert after[i] == processed[i];
      }
    }

    lemma {:induction false} PublicationsStep(env: nat -> RecordMoment, processed: seq<Entry>, e: Entry)
      ensures Publications(sv, json, env, processed + [e]) ==
                Publications(sv, json, env, processed) + PublishedBy(Process(sv, json, env(|processed|), e).1)
    {
      hide Process, PublishedBy;
      assert (processed + [e])[..|processed|] == processed;
    }

    /** Processing leaves the registry as the last record met it, and the cache as its decision does. */
    predicate Leaves(env: nat -> RecordMoment, processed: seq<Entry>, registry: Registry, cache: Cache) {
      processed != [] &&
      var n := |processed| - 1;
      registry == env(n).scene.registry && cache == Process(sv, json, env(n), processed[n]).0
    }

    lemma LeavesStep(env: nat -> RecordMoment, processed: seq<Entry>, e: Entry, registry: Registry, cache: Cache)
      requires registry == env(|processed|).scene.registry
      requires cache == Process(sv, json, env(|processed|), e).0
      ensures Leaves(env, processed + [e], registry, cache)
    {
      hide Process;
    }

    lemma NothingProcessed(env: nat -> RecordMoment)
      ensures PanickedAtMostLast(env, [], false)
    {
    }

    /** Processes the records of one fetch in turn. */
    method ProcessBatch(start: nat, offset0: nat, processed0: seq<Entry>, log: seq<Entry>, count: nat,
                        env: nat -> RecordMoment)
      returns (offset: nat, processed: seq<Entry>, panicked: bool)
      requires Valid() && HasRead(log, start, offset0, processed0)
      requires responses == Publications(sv, json, env, processed0) && PanickedAtMostLast(env, processed0, false)
      modifies this, protector
      ensures HasRead(log, start, offset, processed) && processed0 <= processed
      ensures |processed0| <= |log| - CountBelow(log, start)
      ensures |processed| <= Fetches(log, start, |processed0|, count)
      ensures !panicked ==> |processed| == Fetches(log, start, |processed0|, count)
      ensures responses == Publications(sv, json, env, processed) && PanickedAtMostLast(env, processed, panicked)
      ensures processed == processed0 ==> registry == old(registry) && protector.seenNonces == old(protector.seenNonces)
      ensures processed != processed0 ==> Leaves(env, processed, registry, protector.seenNonces)
    {
      hide Process, CountBelow, HasRead, Publications, PanickedAtMostLast, Leaves;
      offset, processed, panicked := offset0, processed0, false;
      var records := Fetch(log, offset, count);
      ghost var first := CountBelow(log, offset);
      ReadIsFirst(log, start, offset, processed);
      for k := 0 to |records|
        invariant HasRead(log, start, offset, processed) && CountBelow(log, offset) == first + k
        invariant processed0 <= processed && |processed| == |processed0| + k
        invariant if k == 0
                  then registry == old(registry) && protector.seenNonces == old(protector.seenNonces)
                  else Leaves(env, processed, registry, protector.seenNonces)
        invariant responses == Publications(sv, json, env, processed) && PanickedAtMostLast(env, processed, false)
      {
        var e := records[k];
        ReadNext(log, start, offset, processed);
        offset := e.offset + 1;
        var m := env(|processed|);
        Interfere(m.scene);
        var result := ProcessRecord(e, m.scene.now, m.scene.fault, m.sentAt, m.brokerUp);
        PanicStep(env, processed, e);
        PublicationsStep(env, processed, e);
        LeavesStep(env, processed, e, registry, protector.seenNonces);
        processed := processed + [e];
        if result.WorkerPanicked? {
          panicked := true;
          return;
        }
      }
    }

    /** Consumes from a starting offset until stopped. Whatever fetches fail or are cancelled and
        whatever records cannot be read or answered, the records processed are exactly those that
        the fetches before the stop have returned from the starting offset on, once each and in
        order, unless one of them makes the worker panic; the replies published are theirs. */
    method Run(start: nat, log: seq<Entry>, polls: seq<Poll>, env: nat -> RecordMoment)
      returns (offset: nat, processed: seq<Entry>, seen: seq<Entry>, panicked: bool)
      requires Valid() && Growing(log, polls) && responses == []
      modifies this, protector
      ensures log <= seen && HasRead(seen, start, offset, processed)
      ensures processed <= Due(log, start, Active(polls))
      ensures !panicked ==> processed == Due(log, start, Active(polls)) && seen == LastLog(log, Active(polls))
      ensures !panicked && Stop !in polls ==> seen == LastLog(log, polls)
      ensures responses == Publications(sv, json, env, processed) && PanickedAtMostLast(env, processed, panicked)
      ensures processed == [] ==> registry == old(registry) && protector.seenNonces == old(protector.seenNonces)
      ensures processed != [] ==> Leaves(env, processed, registry, protector.seenNonces)
    {
      hide HasRead, Process, Leaves, PanickedAtMostLast, Publications, Due, CountBelow, Growing, Reached, LastLog,
           Active;
      offset, processed, seen, panicked := start, [], log, false;
      ghost var script := Active(polls);
      StartOfScript(sv, json, env, log, start, polls);
      NothingProcessed(env);
      if Stop !in polls { ActiveIsAll(polls); }
      var n := 0;
      while n < |polls|
        invariant n <= |polls| && log <= seen && !panicked
        invariant OnTrack(log, start, script, seen, offset, processed, Active(polls[n..]))
        invariant responses == Publications(sv, json, env, processed) && PanickedAtMostLast(env, processed, false)
        invariant processed == [] ==> registry == old(registry) && protector.seenNonces == old(protector.seenNonces)
        invariant processed != [] ==> Leaves(env, processed, registry, protector.seenNonces)
      {
        var poll := polls[n];
        ActiveNext(polls, n);
        n := n + 1;
        if poll.Stop? {
          AtTheEnd(log, start, script, seen, offset, processed);
          return;
        }
        if poll.Fetched? {
          ghost var rest := Active(polls[n..]);
          NextFetch(log, start, script, seen, offset, processed, poll, rest);
          ghost var before := processed;
          seen := poll.log;
          offset, processed, panicked := ProcessBatch(start, offset, processed, seen, poll.count, env);
          AfterFetch(log, start, script, seen, before, offset, processed, poll.count, rest);
          if panicked {
            return;
          }
        } else {
          NextNothing(log, start, script, seen, offset, processed, poll, Active(polls[n..]));
        }
      }
      ActiveEnds(polls);
      AtTheEnd(log, start, script, seen, offset, processed);
    }
  }

  // ----- Waiting for a response -----

  function MatchOf(json: seq<byte> -> Option<KafkaAuthResponse>, id: Text, e: Entry): Option<KafkaAuthResponse> {
    match e.value
    case None => None
    case Some(b) =>
      match json(b)
      case None => None
      case Some(r) => if r.requestId == id then Some(r) else None
  }

  /** The match with the least offset. */
  function FirstMatch(json: seq<byte> -> Option<KafkaAuthResponse>, id: Text,
                      entries: seq<Entry>): Option<KafkaAuthResponse> {
    if entries == [] then None
    else
      match FirstMatch(json, id, entries[..|entries| - 1])
      case Some(r) => Some(r)
      case None => MatchOf(json, id, entries[|entries| - 1])
  }

  lemma {:induction false} FirstMatchLeast(json: seq<byte> -> Option<KafkaAuthResponse>, id: Text, entries: seq<Entry>)
    ensures match FirstMatch(json, id, entries)
            case None => forall i :: 0 <= i < |entries| ==> MatchOf(json, id, entries[i]) == None
            case Some(r) => exists i :: 0 <= i < |entries| && MatchOf(json, id, entries[i]) == Some(r) &&
                                        forall j :: 0 <= j < i ==> MatchOf(json, id, entries[j]) == None
  {
    if entries != [] {
      var n := |entries| - 1;
      var front := entries[..n];
      FirstMatchLeast(json, id, front);
      match FirstMatch(json, id, front)
      case None => assert forall i :: 0 <= i < n ==> front[i] == entries[i];
      case Some(r) =>
        var i :| 0 <= i < |front| && MatchOf(json, id, front[i]) == Some(r) &&
                 forall j :: 0 <= j < i ==> MatchOf(json, id, front[j]) == None;
        assert forall j :: 0 <= j <= i ==> front[j] == entries[j];
    }
  }

  lemma {:induction false} FirstMatchStable(json: seq<byte> -> Option<KafkaAuthResponse>, id: Text,
                                            entries: seq<Entry>, more: seq<Entry>)
    requires FirstMatch(json, id, entries).Some?
    ensures FirstMatch(json, id, entries + more) == FirstMatch(json, id, entries)
    decreases |more|
  {
    if more == [] {
      assert entries + more == entries;
    } else {
      var n := |more| - 1;
      FirstMatchStable(json, id, entries, more[..n]);
      assert (entries + more)[..|entries + more| - 1] == entries + more[..n];
    }
  }

  /** Scans the records of one fetch up to the first match. */
  method ScanBatch(json: seq<byte> -> Option<KafkaAuthResponse>, requestId: Text, start: nat, offset0: nat,
                   ghost read0: seq<Entry>, log: seq<Entry>, count: nat)
    returns (found: Option<KafkaAuthResponse>, offset: nat, ghost read: seq<Entry>)
    requires HasRead(log, start, offset0, read0) && FirstMatch(json, requestId, read0) == None
    ensures HasRead(log, start, offset, read) && found == FirstMatch(json, requestId, read)
    ensures |read0| <= |log| - CountBelow(log, start) && |read| <= Fetches(log, start, |read0|, count)
    ensures found == None ==> |read| == Fetches(log, start, |read0|, count)
    ensures found.Some? ==> read != [] && MatchOf(json, requestId, read[|read| - 1]) == found
  {
    hide CountBelow, HasRead;
    offset, read, found := offset0, read0, None;
    var records := Fetch(log, offset, count);
    ghost var first := CountBelow(log, offset);
    ReadIsFirst(log, start, offset, read);
    for k := 0 to |records|
      invariant HasRead(log, start, offset, read) && CountBelow(log, offset) == first + k
      invariant |read| == |read0| + k
      invariant found == None == FirstMatch(json, requestId, read)
    {
      var e := records[k];
      ReadNext(log, start, offset, read);
      assert (read + [e])[..|read|] == read;
      offset, read := e.offset + 1, read + [e];
      found := MatchOf(json, requestId, e);
      if found.Some? {
        return;
      }
    }
  }

  /** Polls the response topic from its start; the polls end at the deadline. What is found is the
      first match among the records that the fetches return from the start on; the scan skips no
      record and reads none beyond the match. */
  method WaitForResponse(json: seq<byte> -> Option<KafkaAuthResponse>, requestId: Text, start: nat, log: seq<Entry>,
                         polls: seq<Poll>)
    returns (found: Option<KafkaAuthResponse>, offset: nat, seen: seq<Entry>)
    requires Growing(log, polls)
    ensures log <= seen && HasRead(seen, start, offset, Span(seen, start, offset))
    ensures found == FirstMatch(json, requestId, Span(seen, start, offset))
    ensures found == FirstMatch(json, requestId, Due(log, start, polls))
    ensures found == None ==> seen == LastLog(log, polls) && Span(seen, start, offset) == Due(log, start, polls)
    ensures found.Some? ==>
              var read := Span(seen, start, offset); read != [] && MatchOf(json, requestId, read[|read| - 1]) == found
  {
    hide HasRead, CountBelow, Growing, Reached, LastLog, Due, Span;
    offset, seen, found := start, log, None;
    ghost var read: seq<Entry> := [];
    Starts(log, start, polls);
    var n := 0;
    assert polls[0..] == polls;
    while n < |polls|
      invariant n <= |polls| && log <= seen && found == None == FirstMatch(json, requestId, read)
      invariant OnTrack(log, start, polls, seen, offset, read, polls[n..])
    {
      var poll := polls[n];
      assert polls[n..] == [poll] + polls[n + 1..];
      n := n + 1;
      if poll.Fetched? {
        NextFetch(log, start, polls, seen, offset, read, poll, polls[n..]);
        seen := poll.log;
        ghost var before := read;
        found, offset, read := ScanBatch(json, requestId, start, offset, read, seen, poll.count);
        AfterFetch(log, start, polls, seen, before, offset, read, poll.count, polls[n..]);
        if found.Some? {
          SpanIsRead(seen, start, offset, read);
          FirstMatchWithin(json, requestId, read, Due(log, start, polls));
          return;
        }
      } else {
        NextNothing(log, start, polls, seen, offset, read, poll, polls[n..]);
      }
    }
    assert polls[n..] == [];
    AtTheEnd(log, start, polls, seen, offset, read);
    SpanIsRead(seen, start, offset, read);
  }

  lemma SpanIsRead(log: seq<Entry>, start: nat, offset: nat, read: seq<Entry>)
    requires HasRead(log, start, offset, read)
    ensures read == Span(log, start, offset)
  {
  }

  lemma FirstMatchWithin(json: seq<byte> -> Option<KafkaAuthResponse>, id: Text, read: seq<Entry>, due: seq<Entry>)
    requires read <= due && FirstMatch(json, id, read).Some?
    ensures FirstMatch(json, id, due) == FirstMatch(json, id, read)
  {
    hide FirstMatch;
    assert due == read + due[|read|..];
    FirstMatchStable(json, id, read, due[|read|..]);
  }

  /** Two successful scans of a topic that keeps its records, however long the log was and
      wherever below its records they started, found the same response. */
  lemma SuccessfulWaitsAgree(json: seq<byte> -> Option<KafkaAuthResponse>, id: Text, log: seq<Entry>,
                             longer: seq<Entry>,
                             start: nat, offset: nat, start': nat, offset': nat)
    requires log <= longer && Increasing(longer)
    requires longer != [] ==> start <= longer[0].offset && start' <= longer[0].offset
    requires FirstMatch(json, id, Span(log, start, offset)).Some?
    requires FirstMatch(json, id, Span(longer, start', offset')).Some?
    ensures FirstMatch(json, id, Span(log, start, offset)) == FirstMatch(json, id, Span(longer, start', offset'))
  {
    WholeMatch(json, id, longer, log, start, offset);
    WholeMatch(json, id, longer, longer, start', offset');
  }

  lemma WholeMatch(json: seq<byte> -> Option<KafkaAuthResponse>, id: Text, longer: seq<Entry>, log: seq<Entry>,
                   start: nat, offset: nat)
    requires log <= longer && Increasing(longer)
    requires longer != [] ==> start <= longer[0].offset
    requires FirstMatch(json, id, Span(log, start, offset)).Some?
    ensures FirstMatch(json, id, longer) == FirstMatch(json, id, Span(log, start, offset))
  {
    hide FirstMatch, CountBelow;
    assert forall i :: 0 <= i < |log| ==> log[i] == longer[i];
    CountIs(log, start, 0);
    var span := Span(log, start, offset);
    assert longer == span + longer[|span|..];
    FirstMatchStable(json, id, span, longer[|span|..]);
  }
}
