/** The proof engine (src/zkp_core_engine.rs): a non-interactive Schnorr proof of knowledge of
    a secret x with x·G = Y, over any curve whose points form a group of prime order. */
module Schnorr {
  import opened Bytes
  import opened NumberTheory
  import opened Groups
  import opened Protocol

  /** The two failures of point decoding are reported apart. */
  datatype PointParse<+P> = BadFormat | OffCurve | OnCurve(point: P)

  datatype Curve<!P(!new, ==)> = Curve(
    group: Group<P>,
    toBytes: P -> seq<byte>,
    fromBytes: seq<byte> -> PointParse<P>,
    hash: seq<byte> -> seq<byte>)
  {
    ghost predicate PointBytesAt(p: P) {
      |toBytes(p)| == 33 && fromBytes(toBytes(p)) == if p == group.zero then BadFormat else OnCurve(p)
    }

    ghost predicate DigestAt(m: seq<byte>) { |hash(m)| == 32 }

    /** 33-byte compressed points, of which only the padded identity does not read back;
        32-byte scalars and digests. */
    ghost predicate Valid() {
      && group.Valid()
      && group.order <= Pow256(32)
      && (forall p :: PointBytesAt(p))
      && (forall m :: DigestAt(m))
    }

    lemma ToBytesInjective(p: P, q: P)
      requires Valid() && toBytes(p) == toBytes(q)
      ensures p == q
    {
      assert PointBytesAt(p) && PointBytesAt(q);
    }
  }

  datatype VerifyError = InvalidRFormat | InvalidEncoding

  /** What a call of verify ends with. Panicked stands for the slice length check of a
      32-byte scalar and for a digest that is not a scalar. */
  datatype Verdict = Accepted | Rejected | Failed(error: VerifyError) | Panicked

  function ScalarFromBytes(order: nat, b: seq<byte>): Option<nat> {
    if FromBigEndian(b) < order then Some(FromBigEndian(b)) else None
  }

  function Preimage<P(!new, ==)>(c: Curve<P>, r: P, y: P, timestamp: i64, nonce: Nonce): seq<byte> {
    c.toBytes(r) + c.toBytes(y) + BigEndian(Unsigned64(timestamp), 8) + nonce
  }

  function Challenge<P(!new, ==)>(c: Curve<P>, r: P, y: P, timestamp: i64, nonce: Nonce): Option<nat> {
    ScalarFromBytes(c.group.order, c.hash(Preimage(c, r, y, timestamp, nonce)))
  }

  /** The verification equation. */
  predicate Satisfies<P(!new, ==)>(g: Group<P>, y: P, r: P, e: nat, s: nat) {
    g.Mul(s, g.gen) == g.add(r, g.Mul(e, y))
  }

  function Verify<P(!new, ==)>(c: Curve<P>, y: P, proof: Proof): Verdict {
    match c.fromBytes(proof.rPoint)
    case BadFormat => Failed(InvalidRFormat)
    case OffCurve => if |proof.sScalar| != 32 then Panicked else Failed(InvalidEncoding)
    case OnCurve(r) =>
      if |proof.sScalar| != 32 then Panicked
      else
        match ScalarFromBytes(c.group.order, proof.sScalar)
        case None => Failed(InvalidEncoding)
        case Some(s) =>
          match Challenge(c, r, y, proof.timestamp, proof.nonce)
          case None => Panicked
          case Some(e) => if Satisfies(c.group, y, r, e, s) then Accepted else Rejected
  }

  /** The proof for secret x, blinding k and the given key, time and nonce; None where the
      digest is not a scalar and the program panics. */
  function Generate<P(!new, ==)>(c: Curve<P>, x: nat, y: P, timestamp: i64, nonce: Nonce, k: nat): Option<Proof>
    requires c.group.order > 0
  {
    var r := c.group.Mul(k, c.group.gen);
    match Challenge(c, r, y, timestamp, nonce)
    case None => None
    case Some(e) => Some(Proof(c.toBytes(r), BigEndian((k + e * x) % c.group.order, 32), timestamp, nonce))
  }

  // ----- What the engine computes, in bytes and points -----

  /** The proof equation over the bytes of a proof: s·G is R + e·Y, where e is the big-endian number
      that the digest of R, Y, the big-endian time and the nonce spells. */
  predicate Proves<P(!new, ==)>(c: Curve<P>, y: P, p: Proof) {
    var parsed := c.fromBytes(p.rPoint);
    && parsed.OnCurve? && |p.sScalar| == 32
    && var r, s := parsed.point, FromBigEndian(p.sScalar);
       var time := BigEndian(if p.timestamp < 0 then p.timestamp + TWO_64 else p.timestamp, 8);
       var e := FromBigEndian(c.hash(c.toBytes(r) + c.toBytes(y) + time + p.nonce));
       s < c.group.order && e < c.group.order && c.group.Mul(s, c.group.gen) == c.group.add(r, c.group.Mul(e, y))
  }

  /** Every verdict, for every key and proof, whatever the lengths of its vectors. */
  lemma VerifyExactly<P(!new)>(c: Curve<P>, y: P, p: Proof)
    ensures Verify(c, y, p) == Accepted <==> Proves(c, y, p)
    ensures c.fromBytes(p.rPoint).BadFormat? ==> Verify(c, y, p) == Failed(InvalidRFormat)
    ensures c.fromBytes(p.rPoint).OffCurve? ==>
              Verify(c, y, p) == if |p.sScalar| == 32 then Failed(InvalidEncoding) else Panicked
    ensures c.fromBytes(p.rPoint).OnCurve? ==>
              var time := BigEndian(if p.timestamp < 0 then p.timestamp + TWO_64 else p.timestamp, 8);
              var r := c.fromBytes(p.rPoint).point;
              var e := FromBigEndian(c.hash(c.toBytes(r) + c.toBytes(y) + time + p.nonce));
              && (Verify(c, y, p) == Panicked <==>
                    |p.sScalar| != 32 || (FromBigEndian(p.sScalar) < c.group.order && e >= c.group.order))
              && (Verify(c, y, p) == Failed(InvalidEncoding) <==>
                    |p.sScalar| == 32 && FromBigEndian(p.sScalar) >= c.group.order)
              && Verify(c, y, p) != Failed(InvalidRFormat)
              && (Verify(c, y, p) == Rejected <==>
                    && |p.sScalar| == 32 && FromBigEndian(p.sScalar) < c.group.order && e < c.group.order
                    && c.group.Mul(FromBigEndian(p.sScalar), c.group.gen) != c.group.add(r, c.group.Mul(e, y)))
  {
    hide BigEndian, FromBigEndian, Group.Mul;
  }

  /** A generated proof carries the bytes of k·G and the response k + e·x modulo the order, for the e
      of the same digest; there is none exactly when that digest is no scalar. */
  lemma GenerateExactly<P(!new)>(c: Curve<P>, x: nat, y: P, timestamp: i64, nonce: Nonce, k: nat)
    requires 0 < c.group.order <= Pow256(32)
    ensures var r := c.group.Mul(k, c.group.gen);
            var time := BigEndian(if timestamp < 0 then timestamp + TWO_64 else timestamp, 8);
            var e := FromBigEndian(c.hash(c.toBytes(r) + c.toBytes(y) + time + nonce));
            match Generate(c, x, y, timestamp, nonce, k)
            case None => e >= c.group.order
            case Some(p) =>
              && e < c.group.order
              && p.rPoint == c.toBytes(r) && p.timestamp == timestamp && p.nonce == nonce
              && |p.sScalar| == 32 && FromBigEndian(p.sScalar) == (k + e * x) % c.group.order
  {
    hide FromBigEndian, BigEndian, Pow256, Group.Mul;
    if Generate(c, x, y, timestamp, nonce, k).Some? {
      var z := GeneratedParts(c, x, y, timestamp, nonce, k);
      BigEndianRoundTrip(z, 32);
    }
  }

  // ----- Completeness -----

  lemma SplitResponse<P(!new)>(g: Group<P>, x: nat, k: nat, e: nat)
    requires g.Valid()
    ensures g.Mul((k + e * x) % g.order, g.gen) == g.add(g.Mul(k, g.gen), g.Mul(e, g.Mul(x, g.gen)))
  {
    var m := e * x;
    g.MulMod(k + m, g.gen);
    g.MulAdd(k, m, g.gen);
    g.MulMul(e, x, g.gen);
  }

  /** The response k + e·x solves the equation for Y exactly when e·(x·G) is e·Y. */
  lemma ResponseSolves<P(!new)>(g: Group<P>, x: nat, y: P, k: nat, e: nat)
    requires g.Valid()
    ensures Satisfies(g, y, g.Mul(k, g.gen), e, (k + e * x) % g.order) <==>
            g.Mul(e, g.Mul(x, g.gen)) == g.Mul(e, y)
  {
    SplitResponse(g, x, k, e);
    CancelBoth(g, g.Mul(k, g.gen), g.Mul(e, g.Mul(x, g.gen)), g.Mul(e, y));
  }

  lemma CancelBoth<P(!new)>(g: Group<P>, a: P, b: P, c: P)
    requires g.Valid()
    ensures g.add(a, b) == g.add(a, c) <==> b == c
  {
    if g.add(a, b) == g.add(a, c) { g.Cancel(a, b, c); }
  }

  /** Scalars below the order that are not zero have no kernel. */
  lemma MulCancel<P(!new)>(g: Group<P>, e: nat, p: P, q: P)
    requires g.Valid() && e < g.order
    ensures g.Mul(e, p) == g.Mul(e, q) <==> e == 0 || p == q
  {
    if e > 0 && g.Mul(e, p) == g.Mul(e, q) {
      var d := g.add(p, g.neg(q));
      g.AddThenSubtract(p, q);
      g.MulOfSum(e, d, q);
      g.Unit(g.Mul(e, q));
      g.Comm(g.Mul(e, d), g.Mul(e, q));
      g.Cancel(g.Mul(e, q), g.Mul(e, d), g.zero);
      g.NoTorsion(e, d);
      g.Unit(q);
    }
  }

  lemma ScalarReadsBack(order: nat, s: nat)
    requires s < order <= Pow256(32)
    ensures ScalarFromBytes(order, BigEndian(s, 32)) == Some(s)
  {
    BigEndianRoundTrip(s, 32);
  }

  /** A proof whose bytes encode a point and a scalar is judged by the equation alone. */
  lemma VerifyEncoded<P(!new)>(c: Curve<P>, y: P, r: P, s: nat, timestamp: i64, nonce: Nonce)
    requires c.Valid() && s < c.group.order && Challenge(c, r, y, timestamp, nonce).Some?
    ensures var e := Challenge(c, r, y, timestamp, nonce).value;
            Verify(c, y, Proof(c.toBytes(r), BigEndian(s, 32), timestamp, nonce)) ==
              if r == c.group.zero then Failed(InvalidRFormat)
              else if Satisfies(c.group, y, r, e, s) then Accepted
              else Rejected
  {
    hide Challenge, Satisfies, ScalarFromBytes, BigEndian, Pow256;
    assert c.PointBytesAt(r);
    ScalarReadsBack(c.group.order, s);
  }

  /** Completeness, exactly: what generate produces is accepted unless the blinding is zero
      (then the commitment has no readable encoding) or the key given is not the secret's own
      (then it is accepted only under a zero challenge). */
  lemma GeneratedProofs<P(!new)>(c: Curve<P>, x: nat, y: P, timestamp: i64, nonce: Nonce, k: nat)
    requires c.Valid() && k < c.group.order
    requires Generate(c, x, y, timestamp, nonce, k).Some?
    ensures var p := Generate(c, x, y, timestamp, nonce, k).value;
            var e := Challenge(c, c.group.Mul(k, c.group.gen), y, timestamp, nonce).value;
            Verify(c, y, p) ==
              if k == 0 then Failed(InvalidRFormat)
              else if e == 0 || y == c.group.Mul(x, c.group.gen) then Accepted
              else Rejected
  {
    hide Verify, Generate, Satisfies, Challenge, Group.Mul;
    var g := c.group;
    var r := g.Mul(k, g.gen);
    var z := GeneratedParts(c, x, y, timestamp, nonce, k);
    var e := Challenge(c, r, y, timestamp, nonce).value;
    CommitmentIsZero(g, k);
    VerifyEncoded(c, y, r, z, timestamp, nonce);
    ResponseSolves(g, x, y, k, e);
    MulCancel(g, e, g.Mul(x, g.gen), y);
  }

  lemma CommitmentIsZero<P(!new)>(g: Group<P>, k: nat)
    requires g.Valid() && k < g.order
    ensures g.Mul(k, g.gen) == g.zero <==> k == 0
  {
    if k > 0 && g.Mul(k, g.gen) == g.zero { g.NoTorsion(k, g.gen); }
  }

  lemma GeneratedParts<P(!new)>(c: Curve<P>, x: nat, y: P, timestamp: i64, nonce: Nonce, k: nat) returns (z: nat)
    requires c.group.order > 0 && Generate(c, x, y, timestamp, nonce, k).Some?
    ensures var r := c.group.Mul(k, c.group.gen);
            && Challenge(c, r, y, timestamp, nonce).Some?
            && z < c.group.order
            && z == (k + Challenge(c, r, y, timestamp, nonce).value * x) % c.group.order
            && Challenge(c, r, y, timestamp, nonce).value < c.group.order
            && Generate(c, x, y, timestamp, nonce, k).value == Proof(c.toBytes(r), BigEndian(z, 32), timestamp, nonce)
  {
    z := (k + Challenge(c, c.group.Mul(k, c.group.gen), y, timestamp, nonce).value * x) % c.group.order;
  }

  /** An honest prover is always accepted. */
  lemma Completeness<P(!new)>(c: Curve<P>, x: nat, timestamp: i64, nonce: Nonce, k: nat)
    requires c.Valid() && 0 < k < c.group.order
    requires Generate(c, x, c.group.Mul(x, c.group.gen), timestamp, nonce, k).Some?
    ensures var y := c.group.Mul(x, c.group.gen);
            Verify(c, y, Generate(c, x, y, timestamp, nonce, k).value) == Accepted
  {
    GeneratedProofs(c, x, c.group.Mul(x, c.group.gen), timestamp, nonce, k);
  }

  // ----- Response uniqueness -----

  /** Of all 32-byte strings, only the one in an accepted proof is accepted in its place. */
  lemma ResponseUnique<P(!new)>(c: Curve<P>, y: P, proof: Proof, s: seq<byte>)
    requires c.Valid() && Verify(c, y, proof) == Accepted && |s| == 32
    ensures Verify(c, y, proof.(sScalar := s)) ==
              if s == proof.sScalar then Accepted
              else if FromBigEndian(s) >= c.group.order then Failed(InvalidEncoding)
              else Rejected
  {
    var g := c.group;
    var old' := FromBigEndian(proof.sScalar);
    if s != proof.sScalar && FromBigEndian(s) < g.order && g.Mul(FromBigEndian(s), g.gen) == g.Mul(old', g.gen) {
      g.MulInjective(FromBigEndian(s), old', g.gen);
      FromBigEndianInjective(s, proof.sScalar);
    }
  }

  /** The corruption clients use to simulate fraud: the last byte, plus one, wrapping. */
  function BumpLast(s: seq<byte>): seq<byte> {
    if s == [] then s
    else
      var last: int := s[|s| - 1];
      s[|s| - 1 := (last + 1) % 256]
  }

  /** One more than the old byte, modulo 256, and nothing else touched. */
  lemma BumpLastExact(s: seq<byte>)
    ensures |BumpLast(s)| == |s|
    ensures s != [] ==>
              var n := |s| - 1;
              BumpLast(s)[..n] == s[..n] && BumpLast(s)[n] as int == if s[n] as int == 255 then 0 else s[n] as int + 1
  {
  }

  lemma AcceptedHas32<P(!new)>(c: Curve<P>, y: P, proof: Proof)
    requires Verify(c, y, proof) == Accepted
    ensures |proof.sScalar| == 32
  {
    hide Challenge, Satisfies, ScalarFromBytes;
  }

  lemma TamperedResponseRefused<P(!new)>(c: Curve<P>, y: P, proof: Proof)
    requires c.Valid() && Verify(c, y, proof) == Accepted
    ensures |proof.sScalar| == 32
    ensures var last := (proof.sScalar[31] as int + 1) % 256;
            BumpLast(proof.sScalar) == proof.sScalar[..31] + [last]
    ensures var tampered := proof.(sScalar := BumpLast(proof.sScalar));
            Verify(c, y, tampered) == Rejected || Verify(c, y, tampered) == Failed(InvalidEncoding)
  {
    hide Verify;
    AcceptedHas32(c, y, proof);
    assert BumpLast(proof.sScalar)[31] != proof.sScalar[31];
    ResponseUnique(c, y, proof, BumpLast(proof.sScalar));
  }

  // ----- The challenge binds time and nonce -----

  lemma PreimageParts<P(!new)>(c: Curve<P>, r: P, y: P, t: i64, n: Nonce)
    requires c.Valid()
    ensures var m := Preimage(c, r, y, t, n);
            && |m| == 90
            && m[..33] == c.toBytes(r)
            && m[33..66] == c.toBytes(y)
            && m[66..74] == BigEndian(Unsigned64(t), 8)
            && m[74..] == n
  {
    assert c.PointBytesAt(r) && c.PointBytesAt(y);
    Slices(c.toBytes(r), c.toBytes(y), BigEndian(Unsigned64(t), 8), n);
  }

  lemma Slices(a: seq<byte>, b: seq<byte>, c: seq<byte>, d: seq<byte>)
    ensures var m, i, j := a + b + c + d, |a| + |b|, |a| + |b| + |c|;
            m[..|a|] == a && m[|a|..i] == b && m[i..j] == c && m[j..] == d
  {
  }

  lemma TimestampBytesInjective(t: i64, t': i64)
    requires BigEndian(Unsigned64(t), 8) == BigEndian(Unsigned64(t'), 8)
    ensures t == t'
  {
    Pow256Of8();
    BigEndianRoundTrip(Unsigned64(t), 8);
    BigEndianRoundTrip(Unsigned64(t'), 8);
  }

  /** The 90 bytes hashed determine commitment, key, time and nonce. */
  lemma PreimageInjective<P(!new)>(c: Curve<P>, r: P, y: P, t: i64, n: Nonce, r': P, y': P, t': i64, n': Nonce)
    requires c.Valid() && Preimage(c, r, y, t, n) == Preimage(c, r', y', t', n')
    ensures r == r' && y == y' && t == t' && n == n'
  {
    PreimageParts(c, r, y, t, n);
    PreimageParts(c, r', y', t', n');
    c.ToBytesInjective(r, r');
    c.ToBytesInjective(y, y');
    TimestampBytesInjective(t, t');
  }

  /** One commitment and one response fit two challenges only for the identity key. */
  lemma ChallengeDetermined<P(!new)>(g: Group<P>, y: P, r: P, e: nat, e': nat, s: nat)
    requires g.Valid() && e < g.order && e' < g.order
    requires Satisfies(g, y, r, e, s)
    ensures Satisfies(g, y, r, e', s) <==> e == e' || y == g.zero
  {
    g.MulZero(e);
    g.MulZero(e');
    if Satisfies(g, y, r, e', s) {
      g.Cancel(r, g.Mul(e, y), g.Mul(e', y));
      if y != g.zero { g.MulInjective(e, e', y); }
    }
  }

  /** Changing the time or the nonce of an accepted proof makes verify answer false, for every
      key but the identity, unless the hash collides on the two (always different) preimages or
      the new digest is no scalar. */
  lemma RestampedProof<P(!new)>(c: Curve<P>, y: P, proof: Proof, t: i64, n: Nonce)
    requires c.Valid() && Verify(c, y, proof) == Accepted
    requires t != proof.timestamp || n != proof.nonce
    ensures var r := c.fromBytes(proof.rPoint).point;
            var m, m' := Preimage(c, r, y, proof.timestamp, proof.nonce), Preimage(c, r, y, t, n);
            && m != m'
            && Verify(c, y, proof.(timestamp := t, nonce := n)) ==
                 if FromBigEndian(c.hash(m')) >= c.group.order then Panicked
                 else if y == c.group.zero || c.hash(m) == c.hash(m') then Accepted
                 else Rejected
  {
    var r := c.fromBytes(proof.rPoint).point;
    var m, m' := Preimage(c, r, y, proof.timestamp, proof.nonce), Preimage(c, r, y, t, n);
    if m == m' { PreimageInjective(c, r, y, proof.timestamp, proof.nonce, r, y, t, n); }
    var e := Challenge(c, r, y, proof.timestamp, proof.nonce).value;
    var e' := FromBigEndian(c.hash(m'));
    assert c.DigestAt(m) && c.DigestAt(m');
    if e == e' { FromBigEndianInjective(c.hash(m), c.hash(m')); }
    if e' < c.group.order { ChallengeDetermined(c.group, y, r, e, e', FromBigEndian(proof.sScalar)); }
  }

  // ----- Special soundness -----

  /** The secret behind two transcripts with one commitment. */
  ghost function Extract(order: nat, s1: nat, e1: nat, s2: nat, e2: nat): nat
    requires Prime(order) && e1 < order && e2 < order && e1 != e2
  {
    DifferenceMod(e1, e2, order);
    (s1 + (order - s2 % order)) * Inverse((e1 + order - e2) % order, order) % order
  }

  /** d·p is a·p - b·p when d is a - b modulo the order. */
  lemma MulDifference<P(!new)>(g: Group<P>, a: nat, b: nat, d: nat, p: P)
    requires g.Valid() && (d + b) % g.order == a % g.order
    ensures g.add(g.Mul(d, p), g.Mul(b, p)) == g.Mul(a, p)
  {
    g.MulAdd(d, b, p);
    g.MulCongruent(d + b, a, p);
  }

  lemma DifferencesMatch<P(!new)>(g: Group<P>, y: P, r: P, s1: nat, e1: nat, s2: nat, e2: nat, ds: nat, de: nat)
    requires g.Valid() && Satisfies(g, y, r, e1, s1) && Satisfies(g, y, r, e2, s2)
    requires (ds + s2) % g.order == s1 % g.order && (de + e2) % g.order == e1 % g.order
    ensures g.Mul(ds, g.gen) == g.Mul(de, y)
  {
    var a, b, u, v := g.Mul(ds, g.gen), g.Mul(s2, g.gen), g.Mul(de, y), g.Mul(e2, y);
    MulDifference(g, s1, s2, ds, g.gen);
    MulDifference(g, e1, e2, de, y);
    // a + (r + v) == a + b == r + (u + v), hence a + (r + v) == u + (r + v)
    assert g.add(a, g.add(r, v)) == g.add(r, g.add(u, v));
    g.Assoc(r, u, v);
    g.Comm(r, u);
    g.Assoc(u, r, v);
    g.Comm(a, g.add(r, v));
    g.Comm(u, g.add(r, v));
    g.Cancel(g.add(r, v), a, u);
  }

  lemma ModSubtract(a: nat, b: nat, n: nat)
    requires n > 0
    ensures (a + (n - b % n) + b) % n == a % n
  {
    ModOfSum(a + (n - b % n) + b, a, 1 + b / n, n);
  }

  /** Two accepted equations on one commitment with different challenges give away the secret. */
  lemma SpecialSoundness<P(!new)>(g: Group<P>, y: P, r: P, s1: nat, e1: nat, s2: nat, e2: nat)
    requires g.Valid() && e1 < g.order && e2 < g.order && e1 != e2
    requires Satisfies(g, y, r, e1, s1) && Satisfies(g, y, r, e2, s2)
    ensures g.Mul(Extract(g.order, s1, e1, s2, e2), g.gen) == y
  {
    var n := g.order;
    var ds, de := s1 + (n - s2 % n), (e1 + n - e2) % n;
    ModSubtract(s1, s2, n);
    DifferenceMod(e1, e2, n);
    DifferencesMatch(g, y, r, s1, e1, s2, e2, ds, de);
    DivideOut(g, ds, de, Inverse(de, n), y);
  }

  lemma DivideOut<P(!new)>(g: Group<P>, ds: nat, de: nat, i: nat, y: P)
    requires g.Valid() && (de * i) % g.order == 1
    requires g.Mul(ds, g.gen) == g.Mul(de, y)
    ensures g.Mul(ds * i % g.order, g.gen) == y
  {
    g.MulMod(ds * i, g.gen);
    assert ds * i == i * ds && de * i == i * de;
    g.MulMul(i, ds, g.gen);
    g.MulMul(i, de, y);
    g.MulMod(de * i, y);
    assert g.Mul(1, y) == g.add(y, g.Mul(0, y));
    g.Unit(y);
  }

  lemma DifferenceMod(a: nat, b: nat, n: nat)
    requires a < n && b < n && a != b
    ensures 0 < (a + n - b) % n && ((a + n - b) % n + b) % n == a % n
  {
    SumOfRemainders(a, b, n);
    assert (a + n - b) % n == (a + (n - b)) % n;
    QuotientUnique(a, 0, a, n);
    QuotientUnique((a + n - b) % n + b, if a > b then 0 else 1, a, n);
  }

  /** The extracted value is the prover's own secret, not just some solution. */
  lemma ExtractionRecoversSecret<P(!new)>(g: Group<P>, x: nat, r: P, s1: nat, e1: nat, s2: nat, e2: nat)
    requires g.Valid() && x < g.order && e1 < g.order && e2 < g.order && e1 != e2
    requires Satisfies(g, g.Mul(x, g.gen), r, e1, s1) && Satisfies(g, g.Mul(x, g.gen), r, e2, s2)
    ensures Extract(g.order, s1, e1, s2, e2) == x
  {
    SpecialSoundness(g, g.Mul(x, g.gen), r, s1, e1, s2, e2);
    g.MulInjective(Extract(g.order, s1, e1, s2, e2), x, g.gen);
  }

  /** Special soundness of whole proofs: two accepted proofs that decode to one commitment and
      whose challenges differ reveal a secret for the key. */
  lemma AcceptedProofsRevealSecret<P(!new)>(c: Curve<P>, y: P, p1: Proof, p2: Proof)
    requires c.Valid() && Verify(c, y, p1) == Accepted && Verify(c, y, p2) == Accepted
    requires c.fromBytes(p1.rPoint) == c.fromBytes(p2.rPoint)
    requires var r := c.fromBytes(p1.rPoint).point;
             Challenge(c, r, y, p1.timestamp, p1.nonce) != Challenge(c, r, y, p2.timestamp, p2.nonce)
    ensures var r := c.fromBytes(p1.rPoint).point;
            var x := Extract(c.group.order,
                             FromBigEndian(p1.sScalar), Challenge(c, r, y, p1.timestamp, p1.nonce).value,
                             FromBigEndian(p2.sScalar), Challenge(c, r, y, p2.timestamp, p2.nonce).value);
            c.group.Mul(x, c.group.gen) == y
  {
    var r := c.fromBytes(p1.rPoint).point;
    SpecialSoundness(c.group, y, r,
                     FromBigEndian(p1.sScalar), Challenge(c, r, y, p1.timestamp, p1.nonce).value,
                     FromBigEndian(p2.sScalar), Challenge(c, r, y, p2.timestamp, p2.nonce).value);
  }

  // ----- Perfect simulation -----

  /** The transcript of an honest prover with blinding k, for the challenge e. */
  function Honest<P(!new, ==)>(g: Group<P>, x: nat, e: nat, k: nat): (P, nat)
    requires g.order > 0
  {
    (g.Mul(k, g.gen), (k + e * x) % g.order)
  }

  /** A transcript made from the response backwards, without the secret. */
  function Simulated<P(!new, ==)>(g: Group<P>, y: P, e: nat, s: nat): (P, nat) {
    (g.add(g.Mul(s, g.gen), g.neg(g.Mul(e, y))), s)
  }

  /** The blinding that leads an honest prover to the response s. */
  function BlindingFor(order: nat, x: nat, e: nat, s: nat): nat
    requires order > 0
  {
    (s + (order - (e * x) % order)) % order
  }

  /** Blindings and responses are in one-to-one correspondence. */
  lemma BlindingBijection(order: nat, x: nat, e: nat, k: nat, s: nat)
    requires order > 0 && k < order && s < order
    ensures (k + e * x) % order == s <==> k == BlindingFor(order, x, e, s)
  {
    var m := (e * x) % order;
    ModOfSum(k + e * x, k + m, (e * x) / order, order);
    SumOfRemainders(k, m, order);
    SumOfRemainders(s, m, order);
  }

  /** Simulated transcripts are exactly the accepting ones. */
  lemma SimulatedAreAccepting<P(!new)>(g: Group<P>, y: P, e: nat, r: P, s: nat)
    requires g.Valid()
    ensures Satisfies(g, y, r, e, s) <==> (r, s) == Simulated(g, y, e, s)
  {
    g.AddThenSubtract(r, g.Mul(e, y));
    g.AddThenSubtract(g.Mul(s, g.gen), g.Mul(e, y));
  }

  /** Perfect simulation. For a fixed challenge, the honest prover reaches exactly the accepting
      transcripts, each from exactly one blinding; the simulator reaches the same ones. */
  lemma PerfectSimulation<P(!new)>(g: Group<P>, x: nat, e: nat, r: P, s: nat, k: nat)
    requires g.Valid() && s < g.order && k < g.order
    ensures var y := g.Mul(x, g.gen);
            && (Honest(g, x, e, k) == (r, s) <==> Satisfies(g, y, r, e, s) && k == BlindingFor(g.order, x, e, s))
            && (Simulated(g, y, e, s) == (r, s) <==> Satisfies(g, y, r, e, s))
            && Honest(g, x, e, BlindingFor(g.order, x, e, s)) == Simulated(g, y, e, s)
  {
    var y := g.Mul(x, g.gen);
    var b := BlindingFor(g.order, x, e, s);
    SimulatedAreAccepting(g, y, e, r, s);
    BlindingBijection(g.order, x, e, k, s);
    BlindingBijection(g.order, x, e, b, s);
    ResponseSolves(g, x, y, k, e);
    ResponseSolves(g, x, y, b, e);
    SimulatedAreAccepting(g, y, e, g.Mul(b, g.gen), s);
  }

  // ----- The hypotheses can be met -----

  function TinyBytes(p: bool): (b: seq<byte>)
    ensures |b| == 33
  {
    seq(33, _ => if p then 2 else 0)
  }

  /** The group of two elements, with encodings and digests of the right sizes. */
  function TinyCurve(): Curve<bool> {
    Curve(
      Group((a: bool, b: bool) => a != b, (a: bool) => a, false, true, 2),
      (p: bool) => TinyBytes(p),
      b => if b == TinyBytes(true) then OnCurve(true) else BadFormat,
      m => seq(32, _ => 0))
  }

  lemma TinyGroupValid()
    ensures TinyCurve().group.Valid()
  {
    var g := TinyCurve().group;
    forall p: bool ensures g.KilledAt(p) {
      assert g.Mul(1, p) == g.add(p, g.Mul(0, p));
      assert g.Mul(2, p) == g.add(p, g.Mul(1, p));
    }
  }

  /** What is assumed of a curve is not contradictory. */
  lemma ValidCurveExists()
    ensures TinyCurve().Valid()
  {
    var c := TinyCurve();
    TinyGroupValid();
    forall p: bool ensures c.PointBytesAt(p) {
      assert TinyBytes(p)[0] == if p then 2 else 0;
    }
    assert forall m :: c.DigestAt(m);
    assert Pow256(32) == 256 * Pow256(31);
  }
}
