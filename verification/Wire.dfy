/** The bincode layout of the messages: fixed-width little-endian integers, 64-bit lengths
    before strings and vectors, nothing before arrays, fields in declaration order.

    Every type has a printer and a parser that leaves the bytes it did not need; one lemma
    per type says that the parser is the exact inverse of the printer. */
module Wire {
  import opened Bytes
  import opened Protocol

  datatype Parsed<+T> = Fail | Done(value: T, rest: seq<byte>)

  // ----- Integers, arrays, booleans -----

  function PrintI64(x: i64): (b: seq<byte>)
    ensures |b| == 8
  {
    LittleEndian(Unsigned64(x), 8)
  }

  function ParseI64(b: seq<byte>): Parsed<i64> {
    if |b| < 8 then Fail
    else
      assert FromLittleEndian(b[..8]) < TWO_64 by { FromLittleEndianRoundTrip(b[..8]); Pow256Of8(); }
      Done(Signed64(FromLittleEndian(b[..8])), b[8..])
  }

  lemma I64Exact(b: seq<byte>, x: i64, rest: seq<byte>)
    ensures ParseI64(b) == Done(x, rest) <==> b == PrintI64(x) + rest
  {
    hide LittleEndian, FromLittleEndian;
    Pow256Of8();
    LittleEndianRoundTrip(Unsigned64(x), 8);
    if |b| >= 8 {
      FromLittleEndianRoundTrip(b[..8]);
      assert b == b[..8] + b[8..];
    }
    if b == PrintI64(x) + rest {
      assert b[..8] == PrintI64(x) && b[8..] == rest;
    }
  }

  function ParseNonce(b: seq<byte>): Parsed<Nonce> {
    if |b| < 16 then Fail else Done(b[..16], b[16..])
  }

  lemma NonceExact(b: seq<byte>, x: Nonce, rest: seq<byte>)
    ensures ParseNonce(b) == Done(x, rest) <==> b == x + rest
  {
    if |b| >= 16 { assert b == b[..16] + b[16..]; }
    if b == x + rest { assert b[..16] == x && b[16..] == rest; }
  }

  function PrintBool(x: bool): (b: seq<byte>)
    ensures |b| == 1
  {
    if x then [1] else [0]
  }

  function ParseBool(b: seq<byte>): Parsed<bool> {
    if b == [] || b[0] > 1 then Fail else Done(b[0] == 1, b[1..])
  }

  lemma BoolExact(b: seq<byte>, x: bool, rest: seq<byte>)
    ensures ParseBool(b) == Done(x, rest) <==> b == PrintBool(x) + rest
  {
    if b != [] { assert b == [b[0]] + b[1..]; }
    if b == PrintBool(x) + rest { assert b[1..] == rest; }
  }

  // ----- Vectors and strings -----

  /** A length fits the 64-bit prefix; every vector a program can hold does. */
  predicate Fits(v: seq<byte>) {
    |v| < TWO_64
  }

  function PrintBytes(v: seq<byte>): (b: seq<byte>)
    ensures |b| == 8 + |v|
  {
    LittleEndian(|v|, 8) + v
  }

  function ParseBytes(b: seq<byte>): Parsed<seq<byte>> {
    if |b| < 8 then Fail
    else
      var len := FromLittleEndian(b[..8]);
      if |b| - 8 < len then Fail else Done(b[8..8 + len], b[8 + len..])
  }

  lemma BytesExact(b: seq<byte>, v: seq<byte>, rest: seq<byte>)
    ensures ParseBytes(b) == Done(v, rest) <==> Fits(v) && b == PrintBytes(v) + rest
  {
    Pow256Of8();
    if |b| >= 8 {
      FromLittleEndianRoundTrip(b[..8]);
      var len := FromLittleEndian(b[..8]);
      if |b| - 8 >= len {
        assert b == b[..8] + b[8..8 + len] + b[8 + len..];
      }
    }
    if Fits(v) && b == PrintBytes(v) + rest {
      LittleEndianRoundTrip(|v|, 8);
      assert b[..8] == LittleEndian(|v|, 8);
      assert b[8..8 + |v|] == v && b[8 + |v|..] == rest;
    }
  }

  function ParseText(utf8: Text -> bool, b: seq<byte>): Parsed<Text> {
    match ParseBytes(b)
    case Fail => Fail
    case Done(v, rest) => if utf8(v) then Done(v, rest) else Fail
  }

  lemma TextExact(utf8: Text -> bool, b: seq<byte>, v: Text, rest: seq<byte>)
    ensures ParseText(utf8, b) == Done(v, rest) <==> utf8(v) && Fits(v) && b == PrintBytes(v) + rest
  {
    BytesExact(b, v, rest);
  }

  // ----- Proof -----

  predicate ProofFits(p: Proof) {
    Fits(p.rPoint) && Fits(p.sScalar)
  }

  function PrintProof(p: Proof): (b: seq<byte>)
    ensures |b| == 40 + |p.rPoint| + |p.sScalar|
  {
    PrintBytes(p.rPoint) + (PrintBytes(p.sScalar) + (PrintI64(p.timestamp) + p.nonce))
  }

  function ParseProof(b: seq<byte>): Parsed<Proof> {
    match ParseBytes(b)
    case Fail => Fail
    case Done(r, b1) =>
      match ParseBytes(b1)
      case Fail => Fail
      case Done(s, b2) =>
        match ParseI64(b2)
        case Fail => Fail
        case Done(t, b3) =>
          match ParseNonce(b3)
          case Fail => Fail
          case Done(n, b4) => Done(Proof(r, s, t, n), b4)
  }

  lemma ProofExact(b: seq<byte>, p: Proof, rest: seq<byte>)
    ensures ParseProof(b) == Done(p, rest) <==> ProofFits(p) && b == PrintProof(p) + rest
  {
    var b3 := p.nonce + rest;
    var b2 := PrintI64(p.timestamp) + b3;
    var b1 := PrintBytes(p.sScalar) + b2;
    assert PrintProof(p) + rest == PrintBytes(p.rPoint) + b1;
    if ParseProof(b) == Done(p, rest) {
      var c1 := ParseBytes(b).rest;
      var c2 := ParseBytes(c1).rest;
      var c3 := ParseI64(c2).rest;
      NonceExact(c3, p.nonce, rest);
      I64Exact(c2, p.timestamp, c3);
      BytesExact(c1, p.sScalar, c2);
      BytesExact(b, p.rPoint, c1);
    } else {
      NonceExact(b3, p.nonce, rest);
      I64Exact(b2, p.timestamp, b3);
      BytesExact(b1, p.sScalar, b2);
      BytesExact(b, p.rPoint, b1);
    }
  }

  // ----- AuthRequest -----

  /** What the types of the program promise of a request: the name is a string. */
  predicate RequestFits(utf8: Text -> bool, q: AuthRequest) {
    utf8(q.userId) && Fits(q.userId) && Fits(q.publicKey) && ProofFits(q.proof)
  }

  function PrintRequest(q: AuthRequest): (b: seq<byte>)
    ensures |b| == 56 + |q.userId| + |q.publicKey| + |q.proof.rPoint| + |q.proof.sScalar|
  {
    PrintBytes(q.userId) + (PrintBytes(q.publicKey) + PrintProof(q.proof))
  }

  function ParseRequest(utf8: Text -> bool, b: seq<byte>): Parsed<AuthRequest> {
    match ParseText(utf8, b)
    case Fail => Fail
    case Done(u, b1) =>
      match ParseBytes(b1)
      case Fail => Fail
      case Done(k, b2) =>
        match ParseProof(b2)
        case Fail => Fail
        case Done(p, b3) => Done(AuthRequest(u, k, p), b3)
  }

  lemma RequestExact(utf8: Text -> bool, b: seq<byte>, q: AuthRequest, rest: seq<byte>)
    ensures ParseRequest(utf8, b) == Done(q, rest) <==> RequestFits(utf8, q) && b == PrintRequest(q) + rest
  {
    var b2 := PrintProof(q.proof) + rest;
    var b1 := PrintBytes(q.publicKey) + b2;
    assert PrintRequest(q) + rest == PrintBytes(q.userId) + b1;
    if ParseRequest(utf8, b) == Done(q, rest) {
      var c1 := ParseText(utf8, b).rest;
      var c2 := ParseBytes(c1).rest;
      ProofExact(c2, q.proof, rest);
      BytesExact(c1, q.publicKey, c2);
      TextExact(utf8, b, q.userId, c1);
    } else {
      ProofExact(b2, q.proof, rest);
      BytesExact(b1, q.publicKey, b2);
      TextExact(utf8, b, q.userId, b1);
    }
  }

  // ----- AuthResponse -----

  predicate ResponseFits(utf8: Text -> bool, a: AuthResponse) {
    utf8(a.userId) && Fits(a.userId) && utf8(a.message) && Fits(a.message)
  }

  function PrintResponse(a: AuthResponse): (b: seq<byte>)
    ensures |b| == 17 + |a.userId| + |a.message|
  {
    PrintBytes(a.userId) + (PrintBool(a.success) + PrintBytes(a.message))
  }

  function ParseResponse(utf8: Text -> bool, b: seq<byte>): Parsed<AuthResponse> {
    match ParseText(utf8, b)
    case Fail => Fail
    case Done(u, b1) =>
      match ParseBool(b1)
      case Fail => Fail
      case Done(s, b2) =>
        match ParseText(utf8, b2)
        case Fail => Fail
        case Done(m, b3) => Done(AuthResponse(u, s, m), b3)
  }

  lemma ResponseExact(utf8: Text -> bool, b: seq<byte>, a: AuthResponse, rest: seq<byte>)
    ensures ParseResponse(utf8, b) == Done(a, rest) <==> ResponseFits(utf8, a) && b == PrintResponse(a) + rest
  {
    var b2 := PrintBytes(a.message) + rest;
    var b1 := PrintBool(a.success) + b2;
    assert PrintResponse(a) + rest == PrintBytes(a.userId) + b1;
    if ParseResponse(utf8, b) == Done(a, rest) {
      var c1 := ParseText(utf8, b).rest;
      var c2 := ParseBool(c1).rest;
      TextExact(utf8, c2, a.message, rest);
      BoolExact(c1, a.success, c2);
      TextExact(utf8, b, a.userId, c1);
    } else {
      TextExact(utf8, b2, a.message, rest);
      BoolExact(b1, a.success, b2);
      TextExact(utf8, b, a.userId, b1);
    }
  }

  // ----- KafkaAuthRequest -----

  predicate KafkaRequestFits(utf8: Text -> bool, q: KafkaAuthRequest) {
    && utf8(q.requestId) && Fits(q.requestId)
    && RequestFits(utf8, AuthRequest(q.userId, q.publicKey, q.proof))
  }

  function PrintKafkaRequest(q: KafkaAuthRequest): seq<byte> {
    PrintBytes(q.requestId)
    + (PrintRequest(AuthRequest(q.userId, q.publicKey, q.proof)) + PrintI64(q.timestamp))
  }

  function ParseKafkaRequest(utf8: Text -> bool, b: seq<byte>): Parsed<KafkaAuthRequest> {
    match ParseText(utf8, b)
    case Fail => Fail
    case Done(id, b1) =>
      match ParseRequest(utf8, b1)
      case Fail => Fail
      case Done(q, b2) =>
        match ParseI64(b2)
        case Fail => Fail
        case Done(t, b3) => Done(KafkaAuthRequest(id, q.userId, q.publicKey, q.proof, t), b3)
  }

  lemma KafkaRequestExact(utf8: Text -> bool, b: seq<byte>, q: KafkaAuthRequest, rest: seq<byte>)
    ensures ParseKafkaRequest(utf8, b) == Done(q, rest) <==>
            KafkaRequestFits(utf8, q) && b == PrintKafkaRequest(q) + rest
  {
    var inner := AuthRequest(q.userId, q.publicKey, q.proof);
    var b2 := PrintI64(q.timestamp) + rest;
    var b1 := PrintRequest(inner) + b2;
    assert PrintKafkaRequest(q) + rest == PrintBytes(q.requestId) + b1;
    if ParseKafkaRequest(utf8, b) == Done(q, rest) {
      var c1 := ParseText(utf8, b).rest;
      var c2 := ParseRequest(utf8, c1).rest;
      I64Exact(c2, q.timestamp, rest);
      RequestExact(utf8, c1, inner, c2);
      TextExact(utf8, b, q.requestId, c1);
    } else {
      I64Exact(b2, q.timestamp, rest);
      RequestExact(utf8, b1, inner, b2);
      TextExact(utf8, b, q.requestId, b1);
    }
  }

  // ----- Deserialisation: trailing bytes are tolerated -----

  function DeserializeRequest(utf8: Text -> bool, b: seq<byte>): Option<AuthRequest> {
    match ParseRequest(utf8, b)
    case Fail => None
    case Done(q, _) => Some(q)
  }

  function DeserializeResponse(utf8: Text -> bool, b: seq<byte>): Option<AuthResponse> {
    match ParseResponse(utf8, b)
    case Fail => None
    case Done(a, _) => Some(a)
  }

  function DeserializeKafkaRequest(utf8: Text -> bool, b: seq<byte>): Option<KafkaAuthRequest> {
    match ParseKafkaRequest(utf8, b)
    case Fail => None
    case Done(q, _) => Some(q)
  }

  /** Bytes read back as q exactly when they start with the print of q. */
  lemma DeserializeExact(utf8: Text -> bool, b: seq<byte>, q: AuthRequest)
    ensures DeserializeRequest(utf8, b) == Some(q) <==> RequestFits(utf8, q) && PrintRequest(q) <= b
  {
    hide PrintRequest, ParseRequest, RequestFits;
    var printed := PrintRequest(q);
    if ParseRequest(utf8, b).Done? && ParseRequest(utf8, b).value == q {
      RequestExact(utf8, b, q, ParseRequest(utf8, b).rest);
    } else if printed <= b {
      assert b == printed + b[|printed|..];
      RequestExact(utf8, b, q, b[|printed|..]);
    }
  }

  lemma DeserializeKafkaExact(utf8: Text -> bool, b: seq<byte>, q: KafkaAuthRequest)
    ensures DeserializeKafkaRequest(utf8, b) == Some(q) <==> KafkaRequestFits(utf8, q) && PrintKafkaRequest(q) <= b
  {
    hide PrintKafkaRequest, ParseKafkaRequest, KafkaRequestFits;
    var printed := PrintKafkaRequest(q);
    if ParseKafkaRequest(utf8, b).Done? && ParseKafkaRequest(utf8, b).value == q {
      KafkaRequestExact(utf8, b, q, ParseKafkaRequest(utf8, b).rest);
    } else if printed <= b {
      assert b == printed + b[|printed|..];
      KafkaRequestExact(utf8, b, q, b[|printed|..]);
    }
  }

  /** No print of a request is a proper prefix of another one, nor of the same bytes as another. */
  lemma RequestsPrefixFree(utf8: Text -> bool, q: AuthRequest, q': AuthRequest)
    requires RequestFits(utf8, q) && RequestFits(utf8, q') && PrintRequest(q) <= PrintRequest(q')
    ensures q == q'
  {
    DeserializeExact(utf8, PrintRequest(q'), q);
    DeserializeExact(utf8, PrintRequest(q'), q');
  }

  lemma ResponsesPrefixFree(utf8: Text -> bool, a: AuthResponse, a': AuthResponse)
    requires ResponseFits(utf8, a) && ResponseFits(utf8, a') && PrintResponse(a) <= PrintResponse(a')
    ensures a == a'
  {
    hide PrintResponse, ParseResponse, ResponseFits;
    var b := PrintResponse(a');
    assert b == PrintResponse(a) + b[|PrintResponse(a)|..];
    ResponseExact(utf8, b, a, b[|PrintResponse(a)|..]);
    assert b == PrintResponse(a') + [];
    ResponseExact(utf8, b, a', []);
  }

  lemma KafkaRequestsPrefixFree(utf8: Text -> bool, q: KafkaAuthRequest, q': KafkaAuthRequest)
    requires KafkaRequestFits(utf8, q) && KafkaRequestFits(utf8, q')
    requires PrintKafkaRequest(q) <= PrintKafkaRequest(q')
    ensures q == q'
  {
    hide PrintKafkaRequest, ParseKafkaRequest, KafkaRequestFits;
    var b := PrintKafkaRequest(q');
    assert b == PrintKafkaRequest(q) + b[|PrintKafkaRequest(q)|..];
    KafkaRequestExact(utf8, b, q, b[|PrintKafkaRequest(q)|..]);
    assert b == PrintKafkaRequest(q') + [];
    KafkaRequestExact(utf8, b, q', []);
  }

  // ----- The layout by position -----

  /** The number that eight bytes spell, the least significant first. */
  function Spelled(b: seq<byte>): int
    requires |b| == 8
  {
    b[0] as int + b[1] as int * 0x100 + b[2] as int * 0x1_0000 + b[3] as int * 0x100_0000
    + (b[4] as int + b[5] as int * 0x100 + b[6] as int * 0x1_0000 + b[7] as int * 0x100_0000) * 0x1_0000_0000
  }

  /** A signed integer travels as the eight bytes of its two's complement. */
  lemma I64Layout(x: i64)
    ensures Spelled(PrintI64(x)) == if x < 0 then x + 0x1_0000_0000_0000_0000 else x
  {
    hide LittleEndian, FromLittleEndian;
    Pow256Of8();
    LittleEndianOf8(PrintI64(x));
    LittleEndianRoundTrip(Unsigned64(x), 8);
  }

  /** A vector or string travels as the eight bytes of its length, then its own. */
  lemma BytesLayout(v: seq<byte>)
    requires Fits(v)
    ensures Spelled(PrintBytes(v)[..8]) == |v| && PrintBytes(v)[8..] == v
  {
    hide LittleEndian, FromLittleEndian;
    Pow256Of8();
    LittleEndianRoundTrip(|v|, 8);
    assert PrintBytes(v)[..8] == LittleEndian(|v|, 8);
    LittleEndianOf8(PrintBytes(v)[..8]);
  }

  /** Two parts of a print, by position. */
  lemma Parts(v: seq<byte>, rest: seq<byte>)
    ensures var b := PrintBytes(v) + rest;
            b[..8 + |v|] == PrintBytes(v) && b[8 + |v|..] == rest && b[..8] == PrintBytes(v)[..8] && b[8..8 + |v|] == v
  {
    hide LittleEndian;
  }

  lemma TwoParts(v: seq<byte>, w: seq<byte>, tail: seq<byte>)
    requires Fits(v) && Fits(w)
    ensures var b, i, j := PrintBytes(v) + (PrintBytes(w) + tail), 8 + |v|, 16 + |v| + |w|;
            && Spelled(b[..8]) == |v| && b[8..i] == v
            && Spelled(b[i..i + 8]) == |w| && b[i + 8..j] == w
            && b[j..] == tail
  {
    hide PrintBytes, Spelled;
    var b, i, j := PrintBytes(v) + (PrintBytes(w) + tail), 8 + |v|, 16 + |v| + |w|;
    Parts(v, PrintBytes(w) + tail);
    Parts(w, tail);
    BytesLayout(v);
    BytesLayout(w);
    assert b[i..] == PrintBytes(w) + tail && b[j..] == b[i..][j - i..] == tail;
    assert b[i..i + 8] == b[i..][..8] && b[i + 8..j] == b[i..][8..j - i];
  }

  lemma TimeAndNonce(b: seq<byte>, time: seq<byte>, nonce: seq<byte>, j: nat)
    requires j <= |b| && b[j..] == time + nonce && |time| == 8
    ensures |b| == j + 8 + |nonce| && b[j..j + 8] == time && b[j + 8..] == nonce
  {
    assert b[j..j + 8] == b[j..][..8] == time;
    assert b[j + 8..] == b[j..][8..] == nonce;
  }

  /** A proof: R, s, the time, the nonce. */
  lemma ProofLayout(p: Proof)
    requires ProofFits(p)
    ensures var b, i, j := PrintProof(p), 8 + |p.rPoint|, 16 + |p.rPoint| + |p.sScalar|;
            && |b| == j + 24
            && Spelled(b[..8]) == |p.rPoint| && b[8..i] == p.rPoint
            && Spelled(b[i..i + 8]) == |p.sScalar| && b[i + 8..j] == p.sScalar
            && Spelled(b[j..j + 8]) == (if p.timestamp < 0 then p.timestamp + 0x1_0000_0000_0000_0000 else p.timestamp)
            && b[j + 8..] == p.nonce
  {
    hide PrintBytes, PrintI64, Spelled;
    var j := 16 + |p.rPoint| + |p.sScalar|;
    var time := PrintI64(p.timestamp);
    TwoParts(p.rPoint, p.sScalar, time + p.nonce);
    I64Layout(p.timestamp);
    TimeAndNonce(PrintProof(p), time, p.nonce, j);
  }

  /** A request: the name, the key, the proof. */
  lemma RequestLayout(utf8: Text -> bool, q: AuthRequest)
    requires RequestFits(utf8, q)
    ensures var b, i, j := PrintRequest(q), 8 + |q.userId|, 16 + |q.userId| + |q.publicKey|;
            && Spelled(b[..8]) == |q.userId| && b[8..i] == q.userId
            && Spelled(b[i..i + 8]) == |q.publicKey| && b[i + 8..j] == q.publicKey
            && b[j..] == PrintProof(q.proof)
  {
    hide PrintBytes, PrintProof, Spelled;
    TwoParts(q.userId, q.publicKey, PrintProof(q.proof));
  }

  /** A response: the name, one byte that is 1 for success and 0 otherwise, the message. */
  lemma ResponseLayout(utf8: Text -> bool, a: AuthResponse)
    requires ResponseFits(utf8, a)
    ensures var b, i := PrintResponse(a), 8 + |a.userId|;
            && |b| == i + 9 + |a.message|
            && Spelled(b[..8]) == |a.userId| && b[8..i] == a.userId
            && b[i] as int == (if a.success then 1 else 0)
            && Spelled(b[i + 1..i + 9]) == |a.message| && b[i + 9..] == a.message
  {
    hide PrintBytes, Spelled;
    var b, i := PrintResponse(a), 8 + |a.userId|;
    var tail := PrintBool(a.success) + PrintBytes(a.message);
    Parts(a.userId, tail);
    Parts(a.message, []);
    BytesLayout(a.userId);
    BytesLayout(a.message);
    assert b[i..] == tail && b[i] == tail[0];
    assert b[i + 1..] == tail[1..] == PrintBytes(a.message);
    assert b[i + 1..i + 9] == b[i + 1..][..8] && b[i + 9..] == b[i + 1..][8..];
  }

  /** A Kafka request: its id, then what a request is made of, then the time it was sent. */
  lemma KafkaRequestLayout(utf8: Text -> bool, q: KafkaAuthRequest)
    requires KafkaRequestFits(utf8, q)
    ensures var b, i := PrintKafkaRequest(q), 8 + |q.requestId|;
            var inner := PrintRequest(AuthRequest(q.userId, q.publicKey, q.proof));
            && |b| == i + |inner| + 8
            && Spelled(b[..8]) == |q.requestId| && b[8..i] == q.requestId
            && b[i..i + |inner|] == inner
            && Spelled(b[i + |inner|..]) ==
                 if q.timestamp < 0 then q.timestamp + 0x1_0000_0000_0000_0000 else q.timestamp
  {
    hide PrintBytes, PrintI64, PrintRequest, Spelled;
    var b, i := PrintKafkaRequest(q), 8 + |q.requestId|;
    var inner := PrintRequest(AuthRequest(q.userId, q.publicKey, q.proof));
    var tail := inner + PrintI64(q.timestamp);
    Parts(q.requestId, tail);
    BytesLayout(q.requestId);
    I64Layout(q.timestamp);
    assert b[i..] == tail;
    assert b[i..i + |inner|] == tail[..|inner|] == inner;
    assert b[i + |inner|..] == tail[|inner|..] == PrintI64(q.timestamp);
  }
}
