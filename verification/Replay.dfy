/** The replay cache (src/replay.rs): which proofs a service has accepted inside a sliding
    time window.

    A call reads the clock and tests the window before it takes the lock; what happens from
    lock to return is one critical section. A history is the sequence of critical sections in
    lock order, each with the clock reading its call made earlier, so that any interleaving of
    any number of callers is some history. */
module Replay {
  import opened Bytes
  import opened Protocol

  datatype ReplayError =
    | ProofExpired(ageSecs: i64, maxAllowed: i64)
    | ClockSkewFuture(driftSecs: i64)
    | ReplayDetected

  datatype Outcome = Fresh | Refused(error: ReplayError)

  type Key = (Text, Nonce)
  type Cache = map<Key, i64>

  // ----- The window test, in wrapping 64-bit arithmetic -----

  function WindowError(d: i64, now: i64, ts: i64): Option<ReplayError> {
    var diff := Wrap64(now - ts);
    if diff < Neg64(d) then Some(ClockSkewFuture(Neg64(diff)))
    else if diff > d then Some(ProofExpired(diff, d))
    else None
  }

  /** The engine's own freshness test; the absolute value wraps on the least integer. */
  predicate IsFresh(d: i64, now: i64, ts: i64) {
    var diff := Wrap64(now - ts);
    (if diff < 0 then Neg64(diff) else diff) <= d
  }

  /** A clock after 1970 and a tolerance that does not run off its end. */
  predicate SaneClock(d: i64, now: i64) {
    0 <= now && 0 <= d && now + d < TWO_63
  }

  function Age(now: int, ts: int): int {
    if now >= ts then now - ts else ts - now
  }

  /** For every timestamp a client may send, overflowing differences included, the test passes
      exactly inside the window, and a refusal names the side the proof lies on, unless the
      difference overflows: then a proof from the far past counts as one from the future. */
  lemma WindowExact(d: i64, now: i64, ts: i64)
    requires SaneClock(d, now)
    ensures WindowError(d, now, ts) == None <==> Age(now, ts) <= d
    ensures now - ts < TWO_63 && now - ts > d ==> WindowError(d, now, ts) == Some(ProofExpired(now - ts, d))
    ensures now - ts < -d ==> WindowError(d, now, ts) == Some(ClockSkewFuture(ts - now))
    ensures now - ts >= TWO_63 ==> WindowError(d, now, ts).Some? && WindowError(d, now, ts).value.ClockSkewFuture?
  {
    WrapInRange(now - ts);
    WrapInRange(0 - d);
  }

  /** The two freshness tests agree except on one timestamp, exactly 2^63 seconds back. */
  lemma FreshnessTestsAgree(d: i64, now: i64, ts: i64)
    requires SaneClock(d, now)
    ensures (IsFresh(d, now, ts) <==> WindowError(d, now, ts) == None) <==> now - ts != TWO_63
  {
    WrapInRange(now - ts);
    WrapInRange(0 - d);
    WrapInRange(0 - Wrap64(now - ts));
  }

  lemma FreshnessTestsDisagree()
    ensures IsFresh(60, 1000, 1000 - TWO_63) && WindowError(60, 1000, 1000 - TWO_63) != None
  {
    FreshnessTestsAgree(60, 1000, 1000 - TWO_63);
    WindowExact(60, 1000, 1000 - TWO_63);
  }

  // ----- The critical section -----

  function Prune(cache: Cache, cutoff: i64): Cache {
    map k | k in cache && cache[k] >= cutoff :: cache[k]
  }

  datatype Call = Call(now: i64, key: Key, ts: i64)

  /** The cache a section leaves, and whether it accepts. */
  function Section(d: i64, cache: Cache, c: Call): (Cache, bool) {
    var kept := Prune(cache, Wrap64(c.now - d));
    if c.key in kept then (kept, false) else (kept[c.key := c.ts], true)
  }

  /** A whole call: window test, then critical section. */
  function Check(d: i64, cache: Cache, now: i64, user: Text, proof: Proof): (Cache, Outcome) {
    match WindowError(d, now, proof.timestamp)
    case Some(e) => (cache, Refused(e))
    case None =>
      var (cache', accepted) := Section(d, cache, Call(now, (user, proof.nonce), proof.timestamp));
      (cache', if accepted then Fresh else Refused(ReplayDetected))
  }

  class ReplayProtector {
    const maxDriftSecs: i64
    var seenNonces: Cache

    constructor (maxDriftSecs: i64)
      ensures this.maxDriftSecs == maxDriftSecs && seenNonces == map[]
    {
      this.maxDriftSecs := maxDriftSecs;
      seenNonces := map[];
    }

    method CheckAndRecord(now: i64, userId: Text, proof: Proof) returns (outcome: Outcome)
      modifies this
      ensures (seenNonces, outcome) == Check(maxDriftSecs, old(seenNonces), now, userId, proof)
    {
      var diff := Wrap64(now - proof.timestamp);
      if diff < Neg64(maxDriftSecs) {
        return Refused(ClockSkewFuture(Neg64(diff)));
      }
      if diff > maxDriftSecs {
        return Refused(ProofExpired(diff, maxDriftSecs));
      }
      var cutoff := Wrap64(now - maxDriftSecs);
      seenNonces := map k | k in seenNonces && seenNonces[k] >= cutoff :: seenNonces[k];
      var key := (userId, proof.nonce);
      if key in seenNonces {
        return Refused(ReplayDetected);
      }
      seenNonces := seenNonces[key := proof.timestamp];
      outcome := Fresh;
    }

    /** The number of entries held; after any history that is no more than its acceptances of
        the last two windows. */
    method ActiveNoncesCount() returns (n: nat)
      ensures n == |seenNonces|
      ensures forall h :: History(maxDriftSecs, h) && h != [] && seenNonces == CacheAfter(maxDriftSecs, h) ==>
                n <= |RecentAcceptances(maxDriftSecs, h)|
    {
      forall h | History(maxDriftSecs, h) && h != [] && seenNonces == CacheAfter(maxDriftSecs, h)
        ensures |seenNonces| <= |RecentAcceptances(maxDriftSecs, h)|
      {
        MemoryBound(maxDriftSecs, h);
      }
      n := |seenNonces|;
    }
  }

  // ----- Histories -----

  /** A call that reaches its critical section: its window test passed. */
  predicate Entered(d: i64, c: Call) {
    SaneClock(d, c.now) && WindowError(d, c.now, c.ts) == None
  }

  predicate History(d: i64, h: seq<Call>) {
    forall i :: 0 <= i < |h| ==> Entered(d, h[i])
  }

  function CacheAfter(d: i64, h: seq<Call>): Cache {
    if h == [] then map[] else Section(d, CacheAfter(d, h[..|h| - 1]), h[|h| - 1]).0
  }

  /** What the service answers to c after the history h. */
  predicate Accepts(d: i64, h: seq<Call>, c: Call) {
    Section(d, CacheAfter(d, h), c).1
  }

  predicate AcceptedAt(d: i64, h: seq<Call>, i: nat)
    requires i < |h|
  {
    Accepts(d, h[..i], h[i])
  }

  /** No section after the i-th read a clock more than d past its timestamp. */
  ghost predicate Unexpired(d: i64, h: seq<Call>, i: nat)
    requires i < |h|
  {
    forall j :: i < j < |h| ==> h[j].now <= h[i].ts + d
  }

  /** The i-th call was accepted and is still remembered. */
  ghost predicate Survives(d: i64, h: seq<Call>, i: nat) {
    i < |h| && AcceptedAt(d, h, i) && Unexpired(d, h, i)
  }

  lemma EnteredFacts(d: i64, c: Call)
    requires Entered(d, c)
    ensures Wrap64(c.now - d) == c.now - d && c.now - d <= c.ts <= c.now + d
  {
    WindowExact(d, c.now, c.ts);
    WrapInRange(c.now - d);
  }

  /** Survival, one section earlier. */
  lemma SurvivesStep(d: i64, h: seq<Call>, i: nat)
    requires i + 1 < |h|
    ensures Survives(d, h, i) <==> Survives(d, h[..|h| - 1], i) && h[|h| - 1].now <= h[i].ts + d
  {
    var front := h[..|h| - 1];
    assert front[..i] == h[..i];
    if Survives(d, front, i) && h[|h| - 1].now <= h[i].ts + d {
      forall j | i < j < |h| ensures h[j].now <= h[i].ts + d {
        if j < |front| { assert h[j] == front[j]; }
      }
    }
    if Survives(d, h, i) {
      forall j | i < j < |front| ensures front[j].now <= front[i].ts + d {
        assert h[j] == front[j];
      }
    }
  }

  /** A section accepts exactly the keys without a live entry; the entries after it are the
      live ones before it and the accepted call. */
  lemma SectionExact(d: i64, cache: Cache, c: Call, k: Key)
    requires Entered(d, c)
    ensures var (cache', accepted) := Section(d, cache, c);
            && (accepted <==> !(c.key in cache && cache[c.key] >= c.now - d))
            && (k in cache' <==> (accepted && k == c.key) || (k in cache && cache[k] >= c.now - d))
            && (k in cache' ==> cache'[k] == if accepted && k == c.key then c.ts else cache[k])
  {
    EnteredFacts(d, c);
  }

  /** A whole call succeeds exactly on a proof inside the window whose key has no live entry; a
      call refused by the window leaves the cache alone, any other also prunes it. */
  lemma CheckExact(d: i64, cache: Cache, now: i64, user: Text, proof: Proof, k: Key)
    requires SaneClock(d, now)
    ensures var (cache', outcome) := Check(d, cache, now, user, proof);
            var key, inside := (user, proof.nonce), Age(now, proof.timestamp) <= d;
            && (outcome == Fresh <==> inside && !(key in cache && cache[key] >= now - d))
            && (outcome == Refused(ReplayDetected) <==> inside && key in cache && cache[key] >= now - d)
            && (!inside ==> cache' == cache)
            && (inside ==> (k in cache' <==> (outcome == Fresh && k == key) || (k in cache && cache[k] >= now - d)))
            && (inside && k in cache' ==>
                  cache'[k] == if outcome == Fresh && k == key then proof.timestamp else cache[k])
  {
    WindowExact(d, now, proof.timestamp);
    if Age(now, proof.timestamp) <= d {
      SectionExact(d, cache, Call(now, (user, proof.nonce), proof.timestamp), k);
    }
  }

  /** The cache remembers every survivor ... */
  lemma {:induction false} CacheHoldsSurvivors(d: i64, h: seq<Call>, i: nat)
    requires History(d, h) && Survives(d, h, i)
    ensures h[i].key in CacheAfter(d, h) && CacheAfter(d, h)[h[i].key] == h[i].ts
  {
    hide Section, Entered;
    var n := |h| - 1;
    var front := h[..n];
    SectionExact(d, CacheAfter(d, front), h[n], h[i].key);
    if i < n {
      SurvivesStep(d, h, i);
      CacheHoldsSurvivors(d, front, i);
    }
  }

  /** ... and nothing else. */
  lemma {:induction false} CacheHoldsOnlySurvivors(d: i64, h: seq<Call>, k: Key) returns (i: nat)
    requires History(d, h) && k in CacheAfter(d, h)
    ensures Survives(d, h, i) && h[i].key == k && h[i].ts == CacheAfter(d, h)[k]
  {
    var n := |h| - 1;
    var front := h[..n];
    SectionExact(d, CacheAfter(d, front), h[n], k);
    if AcceptedAt(d, h, n) && k == h[n].key {
      i := n;
    } else {
      i := CacheHoldsOnlySurvivors(d, front, k);
      SurvivesStep(d, h, i);
    }
  }

  /** The cache after any history, whatever the clocks read: exactly the accepted calls not yet
      expired for some later section. */
  lemma CacheExact(d: i64, h: seq<Call>, k: Key, ts: i64)
    requires History(d, h)
    ensures k in CacheAfter(d, h) && CacheAfter(d, h)[k] == ts <==>
            exists i: nat :: Survives(d, h, i) && h[i].key == k && h[i].ts == ts
  {
    if k in CacheAfter(d, h) && CacheAfter(d, h)[k] == ts {
      var i := CacheHoldsOnlySurvivors(d, h, k);
    }
    if i: nat :| Survives(d, h, i) && h[i].key == k && h[i].ts == ts {
      CacheHoldsSurvivors(d, h, i);
    }
  }

  /** The answer to the next call, whatever the clocks read. */
  lemma AnswerExact(d: i64, h: seq<Call>, c: Call)
    requires History(d, h) && Entered(d, c)
    ensures Accepts(d, h, c) <==>
            forall i: nat :: Survives(d, h, i) && h[i].key == c.key ==> h[i].ts + d < c.now
  {
    var cache := CacheAfter(d, h);
    SectionExact(d, cache, c, c.key);
    forall i: nat | Survives(d, h, i) && h[i].key == c.key ensures c.key in cache && cache[c.key] == h[i].ts {
      CacheHoldsSurvivors(d, h, i);
    }
    if c.key in cache {
      var i := CacheHoldsOnlySurvivors(d, h, c.key);
    }
  }

  /** At most one accepted call per key is remembered. */
  lemma OneSurvivorPerKey(d: i64, h: seq<Call>, i: nat, j: nat)
    requires History(d, h) && Survives(d, h, i) && Survives(d, h, j) && h[i].key == h[j].key
    ensures i == j
  {
    var lo, hi := if i <= j then i else j, if i <= j then j else i;
    if lo < hi {
      var before := h[..hi];
      assert before[..lo] == h[..lo];
      assert Survives(d, before, lo);
      AnswerExact(d, before, h[hi]);
      assert false;
    }
  }

  // ----- When a proof is accepted twice -----

  /** The last of the acceptances under a key. */
  predicate LastAccepted(d: i64, h: seq<Call>, l: nat) {
    l < |h| && AcceptedAt(d, h, l) && forall j :: l < j < |h| && h[j].key == h[l].key ==> !AcceptedAt(d, h, j)
  }

  lemma {:induction false} LastExists(d: i64, h: seq<Call>, i: nat) returns (l: nat)
    requires i < |h| && AcceptedAt(d, h, i)
    ensures i <= l && LastAccepted(d, h, l) && h[l].key == h[i].key
    decreases |h| - i
  {
    hide AcceptedAt;
    if j :| i < j < |h| && h[j].key == h[i].key && AcceptedAt(d, h, j) {
      l := LastExists(d, h, j);
    } else {
      l := i;
    }
  }

  /** Only the last acceptance under a key can be remembered. */
  lemma SurvivorIsLast(d: i64, h: seq<Call>, i: nat, l: nat)
    requires History(d, h) && Survives(d, h, i) && LastAccepted(d, h, l) && h[i].key == h[l].key
    ensures i == l
  {
    if i < l {
      // it would have survived up to l, and kept the l-th call out
      assert h[..l][..i] == h[..i];
      assert Survives(d, h[..l], i);
      AnswerExact(d, h[..l], h[l]);
      assert false;
    }
  }

  /** A user and nonce accepted before, shown again with any timestamp, are accepted again exactly
      when their last acceptance has left the window of this call, or some section since read a
      clock past the expiry of that acceptance. */
  lemma NonceReusedExactly(d: i64, h: seq<Call>, l: nat, c: Call)
    requires History(d, h) && Entered(d, c) && LastAccepted(d, h, l) && h[l].key == c.key
    ensures Accepts(d, h, c) <==>
            c.now > h[l].ts + d || exists j :: l < j < |h| && h[j].now > h[l].ts + d
  {
    hide LastAccepted, Accepts, AcceptedAt;
    AnswerExact(d, h, c);
    LastIsAccepted(d, h, l);
    forall i: nat | Survives(d, h, i) && h[i].key == c.key ensures i == l {
      SurvivorIsLast(d, h, i, l);
    }
    if Unexpired(d, h, l) { assert Survives(d, h, l); }
  }

  lemma LastIsAccepted(d: i64, h: seq<Call>, l: nat)
    requires LastAccepted(d, h, l)
    ensures l < |h| && AcceptedAt(d, h, l)
  {
  }

  /** An accepted proof, shown again, is accepted again exactly when the last acceptance of its user
      and nonce, whatever timestamp that had, lies out of the window or was expired for a section
      since. When that acceptance carried the proof's own timestamp, only such a section counts:
      it read its clock ahead of this call. */
  lemma RepeatAcceptedExactly(d: i64, h: seq<Call>, i: nat, c: Call) returns (l: nat)
    requires History(d, h) && Entered(d, c)
    requires i < |h| && AcceptedAt(d, h, i) && h[i].key == c.key
    ensures i <= l && LastAccepted(d, h, l) && h[l].key == c.key
    ensures Accepts(d, h, c) <==>
            c.now > h[l].ts + d || exists j :: l < j < |h| && h[j].now > h[l].ts + d
    ensures h[l].ts == c.ts ==> c.now <= h[l].ts + d
  {
    hide Accepts, AcceptedAt, LastAccepted;
    l := LastExists(d, h, i);
    NonceReusedExactly(d, h, l, c);
    EnteredFacts(d, c);
  }

  /** Bounded inversion: when no earlier section read a clock more than skew ahead of this
      call's, a proof of age at most d - skew is not accepted a second time. */
  lemma BoundedInversionSafe(d: i64, h: seq<Call>, i: nat, c: Call, skew: nat)
    requires History(d, h) && Entered(d, c)
    requires i < |h| && AcceptedAt(d, h, i) && h[i].key == c.key && h[i].ts == c.ts
    requires forall j :: 0 <= j < |h| ==> h[j].now <= c.now + skew
    requires c.now - c.ts <= d - skew
    ensures !Accepts(d, h, c)
  {
    assert Survives(d, h, i);
    EnteredFacts(d, c);
    AnswerExact(d, h, c);
  }

  /** Without an assumption on the clocks a proof can be accepted twice: its first acceptance is
      pruned by a section with a later reading, then a call that read its clock earlier enters. */
  function InvertedHistory(k: Key, other: Key): seq<Call> {
    [Call(100, k, 100), Call(161, other, 161), Call(160, k, 100)]
  }

  lemma DoubleAcceptance(k: Key, other: Key)
    requires k != other
    ensures var h := InvertedHistory(k, other);
            History(60, h) && AcceptedAt(60, h, 0) && AcceptedAt(60, h, 2) && h[0].key == h[2].key && h[0].ts == h[2].ts
  {
    var h := InvertedHistory(k, other);
    WindowExact(60, 100, 100);
    WindowExact(60, 161, 161);
    WindowExact(60, 160, 100);
    assert h[..0] == [] && h[..2][..1] == h[..1] && h[..1] == [h[0]];
    AnswerExact(60, [], h[0]);
    var l := RepeatAcceptedExactly(60, h[..2], 0, h[2]);
    assert h[..2][1].now > h[2].ts + 60;
  }

  /** The bound of BoundedInversionSafe is tight: with a proof of any greater age, still inside the
      window, one section whose reading is ahead by the skew makes the service accept it again. */
  function TightHistory(k: Key, ts: i64, ahead: i64, other: Key): seq<Call> {
    [Call(ts, k, ts), Call(ahead, other, ahead)]
  }

  lemma BoundIsTight(d: i64, now: i64, k: Key, other: Key, age: nat, skew: nat)
    requires k != other && skew >= 1 && d - skew < age <= d
    requires age <= now && now + skew + d < TWO_63
    ensures var h, c := TightHistory(k, now - age, now + skew, other), Call(now, k, now - age);
            && History(d, h) && Entered(d, c) && AcceptedAt(d, h, 0) && h[0].key == c.key && h[0].ts == c.ts
            && (forall j :: 0 <= j < |h| ==> h[j].now <= c.now + skew) && c.now - c.ts == age
            && Accepts(d, h, c)
  {
    var h, c := TightHistory(k, now - age, now + skew, other), Call(now, k, now - age);
    WindowExact(d, h[0].now, h[0].ts);
    WindowExact(d, h[1].now, h[1].ts);
    WindowExact(d, c.now, c.ts);
    assert h[..0] == [];
    AnswerExact(d, [], h[0]);
    var l := RepeatAcceptedExactly(d, h, 0, c);
    assert h[1].now > h[0].ts + d;
  }

  /** An inversion since an acceptance is not enough: one of the same user and nonce under another
      timestamp in between can keep the proof out. */
  lemma ReusedNonceKeepsOut(k: Key, other: Key)
    requires k != other
    ensures var h, c := [Call(100, k, 100), Call(161, other, 161), Call(160, k, 130)], Call(160, k, 100);
            && History(60, h) && Entered(60, c) && AcceptedAt(60, h, 0) && h[0].key == c.key && h[0].ts == c.ts
            && h[1].now > c.ts + 60 && !Accepts(60, h, c)
  {
    var h, c := [Call(100, k, 100), Call(161, other, 161), Call(160, k, 130)], Call(160, k, 100);
    WindowExact(60, 100, 100);
    WindowExact(60, 161, 161);
    WindowExact(60, 160, 130);
    WindowExact(60, 160, 100);
    assert h[..0] == [] && h[..2][..0] == [];
    AnswerExact(60, [], h[0]);
    var l := RepeatAcceptedExactly(60, h[..2], 0, h[2]);
    assert h[..2][1].now > h[..2][0].ts + 60;
    l := RepeatAcceptedExactly(60, h, 2, c);
  }

  // ----- Readings in lock order -----

  predicate InOrder(h: seq<Call>) {
    forall i, j :: 0 <= i < j < |h| ==> h[i].now <= h[j].now
  }

  /** The specification: remember every acceptance for ever, and refuse a call when one of them
      with its key is still inside the window. */
  function Remembered(d: i64, h: seq<Call>): seq<Call> {
    if h == [] then []
    else
      var past := Remembered(d, h[..|h| - 1]);
      if SpecAccepts(d, past, h[|h| - 1]) then past + [h[|h| - 1]] else past
  }

  predicate SpecAccepts(d: i64, past: seq<Call>, c: Call) {
    forall i :: 0 <= i < |past| && past[i].key == c.key ==> past[i].ts < c.now - d
  }

  /** What the specification remembers is what the service accepted. */
  ghost predicate RemembersAccepted(d: i64, h: seq<Call>, past: seq<Call>) {
    && (forall i :: 0 <= i < |h| && AcceptedAt(d, h, i) ==> h[i] in past)
    && (forall c :: c in past ==> exists i :: 0 <= i < |h| && AcceptedAt(d, h, i) && h[i] == c)
  }

  /** In lock order, survival is being inside the window of the last reading. */
  lemma OrderedSurvival(d: i64, h: seq<Call>, i: nat)
    requires History(d, h) && InOrder(h) && i < |h| && AcceptedAt(d, h, i)
    ensures Survives(d, h, i) <==> h[i].ts >= h[|h| - 1].now - d
  {
    EnteredFacts(d, h[i]);
  }

  /** The pruned cache gives every call the answer of the specification that never prunes. */
  lemma {:induction false} CacheRefinesHistory(d: i64, h: seq<Call>, c: Call)
    requires History(d, h) && Entered(d, c) && InOrder(h + [c])
    ensures RemembersAccepted(d, h, Remembered(d, h))
    ensures Accepts(d, h, c) <==> SpecAccepts(d, Remembered(d, h), c)
  {
    hide Accepts, RemembersAccepted, SpecAccepts, Entered;
    var past := Remembered(d, h);
    if h == [] {
      NothingYet(d);
    } else {
      var n := |h| - 1;
      var front := h[..n];
      assert front + [h[n]] == h;
      assert InOrder(front + [h[n]]) by {
        forall i, j | 0 <= i < j < |h| ensures h[i].now <= h[j].now {
          assert (h + [c])[i].now <= (h + [c])[j].now;
        }
      }
      CacheRefinesHistory(d, front, h[n]);
      RememberedStep(d, h);
    }
    AnswersAgree(d, h, c, past);
  }

  lemma NothingYet(d: i64)
    ensures RemembersAccepted(d, [], [])
  {
  }

  lemma RememberedStep(d: i64, h: seq<Call>)
    requires h != []
    requires var front := h[..|h| - 1];
             && RemembersAccepted(d, front, Remembered(d, front))
             && (Accepts(d, front, h[|h| - 1]) <==> SpecAccepts(d, Remembered(d, front), h[|h| - 1]))
    ensures RemembersAccepted(d, h, Remembered(d, h))
  {
    var n := |h| - 1;
    var front := h[..n];
    var old', past := Remembered(d, front), Remembered(d, h);
    assert past == if AcceptedAt(d, h, n) then old' + [h[n]] else old';
    forall i: nat | i < n ensures AcceptedAt(d, h, i) == AcceptedAt(d, front, i) && front[i] == h[i] {
      assert front[..i] == h[..i];
    }
    RememberedExtends(d, h, front, old', past);
  }

  lemma RememberedExtends(d: i64, h: seq<Call>, front: seq<Call>, old': seq<Call>, past: seq<Call>)
    requires h != [] && front == h[..|h| - 1] && RemembersAccepted(d, front, old')
    requires past == if AcceptedAt(d, h, |h| - 1) then old' + [h[|h| - 1]] else old'
    requires forall i: nat :: i < |h| - 1 ==> AcceptedAt(d, h, i) == AcceptedAt(d, front, i)
    ensures RemembersAccepted(d, h, past)
  {
    hide AcceptedAt;
    var n := |h| - 1;
    forall i | 0 <= i < |h| && AcceptedAt(d, h, i) ensures h[i] in past {
      if i < n { assert AcceptedAt(d, front, i) && front[i] in old'; }
    }
    forall c | c in past ensures exists i :: 0 <= i < |h| && AcceptedAt(d, h, i) && h[i] == c {
      if c in old' {
        var i :| 0 <= i < |front| && AcceptedAt(d, front, i) && front[i] == c;
        assert AcceptedAt(d, h, i);
      } else {
        assert AcceptedAt(d, h, n);
      }
    }
  }

  lemma InsideWindowSurvives(d: i64, h: seq<Call>, c: Call, i: nat)
    requires InOrder(h + [c]) && i < |h| && AcceptedAt(d, h, i)
    ensures h[i].ts >= c.now - d ==> Survives(d, h, i)
  {
    forall j | i < j < |h| ensures h[j].now <= c.now {
      assert (h + [c])[j] == h[j] && (h + [c])[|h|] == c;
    }
  }

  lemma AnswersAgree(d: i64, h: seq<Call>, c: Call, past: seq<Call>)
    requires History(d, h) && Entered(d, c) && InOrder(h + [c]) && RemembersAccepted(d, h, past)
    ensures Accepts(d, h, c) <==> SpecAccepts(d, past, c)
  {
    AnswerExact(d, h, c);
    if Accepts(d, h, c) {
      forall m | 0 <= m < |past| && past[m].key == c.key ensures past[m].ts < c.now - d {
        assert past[m] in past;
        var i :| 0 <= i < |h| && AcceptedAt(d, h, i) && h[i] == past[m];
        InsideWindowSurvives(d, h, c, i);
      }
    } else {
      var i: nat :| Survives(d, h, i) && h[i].key == c.key && h[i].ts + d >= c.now;
      assert h[i] in past;
    }
  }

  /** After each section in lock order the cache is exactly the acceptances still inside the
      window of its reading. */
  lemma OrderedCacheExact(d: i64, h: seq<Call>, k: Key, ts: i64)
    requires History(d, h) && InOrder(h) && h != []
    ensures k in CacheAfter(d, h) && CacheAfter(d, h)[k] == ts <==>
            && ts >= h[|h| - 1].now - d
            && exists i :: 0 <= i < |h| && AcceptedAt(d, h, i) && h[i].key == k && h[i].ts == ts
  {
    CacheExact(d, h, k, ts);
    if i :| 0 <= i < |h| && AcceptedAt(d, h, i) && h[i].key == k && h[i].ts == ts {
      OrderedSurvival(d, h, i);
    }
    if i: nat :| Survives(d, h, i) && h[i].key == k && h[i].ts == ts {
      OrderedSurvival(d, h, i);
    }
  }

  /** Between two acceptances of one proof, some section read a clock past its expiry, and hence
      ahead of the reading of the second. */
  lemma AcceptedTwiceOnlyIfInverted(d: i64, h: seq<Call>, i: nat, j: nat) returns (m: nat)
    requires History(d, h) && i < j < |h|
    requires AcceptedAt(d, h, i) && AcceptedAt(d, h, j) && h[i].key == h[j].key && h[i].ts == h[j].ts
    ensures i < m < j && h[m].now > h[i].ts + d && h[m].now > h[j].now
  {
    var before := h[..j];
    assert before[..i] == h[..i];
    EnteredFacts(d, h[j]);
    AnswerExact(d, before, h[j]);
    assert !Survives(d, before, i);
    m :| i < m < j && before[m].now > before[i].ts + d;
  }

  /** In lock order no proof is ever accepted twice. */
  lemma NoDoubleAcceptance(d: i64, h: seq<Call>, i: nat, j: nat)
    requires History(d, h) && InOrder(h) && i < |h| && j < |h|
    requires AcceptedAt(d, h, i) && AcceptedAt(d, h, j) && h[i].key == h[j].key && h[i].ts == h[j].ts
    ensures i == j
  {
    if i < j {
      var m := AcceptedTwiceOnlyIfInverted(d, h, i, j);
      assert false;
    } else if j < i {
      var m := AcceptedTwiceOnlyIfInverted(d, h, j, i);
      assert false;
    }
  }

  // ----- Memory -----

  /** The acceptances whose reading is at most 2d older than the last section's. */
  ghost function RecentAcceptances(d: i64, h: seq<Call>): set<int>
    requires h != []
  {
    set i | 0 <= i < |h| && AcceptedAt(d, h, i) && h[i].now >= h[|h| - 1].now - 2 * d
  }

  lemma {:induction false} ImageNotLarger(h: seq<Call>, indices: set<int>, keys: set<Key>)
    requires forall k :: k in keys ==> exists i :: i in indices && 0 <= i < |h| && h[i].key == k
    ensures |keys| <= |indices|
    decreases keys
  {
    if keys != {} {
      var k :| k in keys;
      var i :| i in indices && 0 <= i < |h| && h[i].key == k;
      forall k' | k' in keys - {k} ensures exists j :: j in indices - {i} && 0 <= j < |h| && h[j].key == k' {
        var j :| j in indices && 0 <= j < |h| && h[j].key == k';
        assert j in indices - {i};
      }
      ImageNotLarger(h, indices - {i}, keys - {k});
    }
  }

  lemma CachedKeyIsRecent(d: i64, h: seq<Call>, k: Key) returns (i: nat)
    requires History(d, h) && h != [] && k in CacheAfter(d, h)
    ensures i in RecentAcceptances(d, h) && i < |h| && h[i].key == k
  {
    i := CacheHoldsOnlySurvivors(d, h, k);
    EnteredFacts(d, h[i]);
    var n := |h| - 1;
    if i < n { assert h[n].now <= h[i].ts + d; }
  }

  /** Whatever the clocks read, the entries held after a section are no more than the
      acceptances of the last 2d seconds before its reading. */
  lemma MemoryBound(d: i64, h: seq<Call>)
    requires History(d, h) && h != []
    ensures |CacheAfter(d, h)| <= |RecentAcceptances(d, h)|
  {
    var keys, recent := CacheAfter(d, h).Keys, RecentAcceptances(d, h);
    forall k | k in keys ensures exists i :: i in recent && 0 <= i < |h| && h[i].key == k {
      var i := CachedKeyIsRecent(d, h, k);
    }
    ImageNotLarger(h, recent, keys);
    assert |CacheAfter(d, h)| == |keys|;
  }
}
