/** Length-delimited framing (src/codec.rs): each message travels as a 4-byte big-endian length
    and that many payload bytes. The decoder works on a buffer that grows as bytes arrive. */
module Framing {
  import opened Bytes

  const MAX_FRAME_SIZE: nat := 65536

  datatype CodecError = PayloadTooLong | FrameTooLong(len: nat) | Undecodable | BytesRemaining

  datatype Decoded<+T> = NeedMore | Item(value: T) | Error(error: CodecError)

  /** A payload on the wire; its length is cast to 32 bits. */
  function Frame(payload: seq<byte>): (f: seq<byte>)
    ensures |f| == 4 + |payload|
  {
    BigEndian(|payload| % TWO_32, 4) + payload
  }

  function EncodeStep(max: nat, payload: seq<byte>): Option<seq<byte>> {
    if |payload| > max then None else Some(Frame(payload))
  }

  /** One decoding attempt: its result and the bytes left in the buffer. */
  function DecodeStep<T>(max: nat, deserialize: seq<byte> -> Option<T>, buf: seq<byte>): (r: (Decoded<T>, seq<byte>))
    ensures r.0.NeedMore? ==> r.1 == buf
    ensures r.0.Item? ==> |r.1| + 4 <= |buf|
  {
    if |buf| < 4 then (NeedMore, buf)
    else
      var len := FromBigEndian(buf[..4]);
      if len > max then (Error(FrameTooLong(len)), buf)
      else if |buf| < 4 + len then (NeedMore, buf)
      else
        match deserialize(buf[4..4 + len])
        case None => (Error(Undecodable), buf[4 + len..])
        case Some(x) => (Item(x), buf[4 + len..])
  }

  /** The length that four header bytes stand for, the most significant first. */
  function HeaderLength(b: seq<byte>): int
    requires |b| >= 4
  {
    b[0] as int * 0x100_0000 + b[1] as int * 0x1_0000 + b[2] as int * 0x100 + b[3] as int
  }

  /** A frame is four bytes that spell the length of the payload modulo 2^32, then the payload. */
  lemma FrameLayout(payload: seq<byte>)
    ensures var f := Frame(payload);
            && f[0] as int * 0x100_0000 + f[1] as int * 0x1_0000 + f[2] as int * 0x100 + f[3] as int ==
                 |payload| % TWO_32
            && f[4..] == payload
            && HeaderLength(f) == |payload| % TWO_32
  {
    hide BigEndian, FromBigEndian;
    var f := Frame(payload);
    var h := BigEndian(|payload| % TWO_32, 4);
    assert f[..4] == h && f[4..] == payload;
    assert f[0] == h[0] && f[1] == h[1] && f[2] == h[2] && f[3] == h[3];
    HeaderValue(|payload| % TWO_32);
    BigEndianOf4(h);
  }

  /** What an attempt does is decided by the number the first four bytes spell. */
  lemma DecodeReads<T>(max: nat, deserialize: seq<byte> -> Option<T>, buf: seq<byte>)
    ensures |buf| < 4 ==> DecodeStep(max, deserialize, buf) == (NeedMore, buf)
    ensures |buf| >= 4 ==>
              var len := buf[0] as int * 0x100_0000 + buf[1] as int * 0x1_0000 + buf[2] as int * 0x100 + buf[3] as int;
              && len == HeaderLength(buf)
              && DecodeStep(max, deserialize, buf) ==
                   if len > max then (Error(FrameTooLong(len)), buf)
                   else if |buf| < 4 + len then (NeedMore, buf)
                   else (match deserialize(buf[4..4 + len]) case None => Error(Undecodable) case Some(x) => Item(x),
                         buf[4 + len..])
  {
    hide FromBigEndian;
    if |buf| >= 4 { BigEndianOf4(buf[..4]); }
  }

  class BytesMut {
    var data: seq<byte>

    constructor ()
      ensures data == []
    {
      data := [];
    }

    method PutSlice(bytes: seq<byte>)
      modifies this
      ensures data == old(data) + bytes
    {
      data := data + bytes;
    }

    /** Removes the first n bytes and returns them. */
    method SplitTo(n: nat) returns (front: seq<byte>)
      requires n <= |data|
      modifies this
      ensures front == old(data)[..n] && data == old(data)[n..]
    {
      front, data := data[..n], data[n..];
    }
  }

  class ZkpMessageCodec<Out, In> {
    const maxFrameSize: nat
    const serialize: Out -> seq<byte>
    const deserialize: seq<byte> -> Option<In>

    constructor (maxFrameSize: nat, serialize: Out -> seq<byte>, deserialize: seq<byte> -> Option<In>)
      ensures this.maxFrameSize == maxFrameSize
      ensures this.serialize == serialize && this.deserialize == deserialize
    {
      this.maxFrameSize, this.serialize, this.deserialize := maxFrameSize, serialize, deserialize;
    }

    method Encode(item: Out, dst: BytesMut) returns (failure: Option<CodecError>)
      modifies dst
      ensures match EncodeStep(maxFrameSize, serialize(item))
              case None => failure == Some(PayloadTooLong) && dst.data == old(dst.data)
              case Some(frame) => failure == None && dst.data == old(dst.data) + frame
      ensures failure == None ==>
                var n, payload := |old(dst.data)|, serialize(item);
                && |dst.data| == n + 4 + |payload| && dst.data[..n] == old(dst.data) && dst.data[n + 4..] == payload
                && HeaderLength(dst.data[n..]) == |payload| % TWO_32
    {
      var payload := serialize(item);
      if |payload| > maxFrameSize {
        return Some(PayloadTooLong);
      }
      dst.PutSlice(BigEndian(|payload| % TWO_32, 4));
      dst.PutSlice(payload);
      assert dst.data == old(dst.data) + Frame(payload);
      FrameLayout(payload);
      assert dst.data[|old(dst.data)|..] == Frame(payload);
      failure := None;
    }

    method Decode(src: BytesMut) returns (result: Decoded<In>)
      modifies src
      ensures (result, src.data) == DecodeStep(maxFrameSize, deserialize, old(src.data))
      ensures var buf := old(src.data);
              if |buf| < 4 || (HeaderLength(buf) <= maxFrameSize && |buf| < 4 + HeaderLength(buf))
              then result == NeedMore && src.data == buf
              else if HeaderLength(buf) > maxFrameSize
              then result == Error(FrameTooLong(HeaderLength(buf))) && src.data == buf
              else src.data == buf[4 + HeaderLength(buf)..]
    {
      DecodeReads(maxFrameSize, deserialize, src.data);
      if |src.data| < 4 {
        return NeedMore;
      }
      var frameLen := FromBigEndian(src.data[..4]);
      if frameLen > maxFrameSize {
        return Error(FrameTooLong(frameLen));
      }
      if |src.data| < 4 + frameLen {
        return NeedMore;
      }
      var _ := src.SplitTo(4);
      var payload := src.SplitTo(frameLen);
      assert payload == old(src.data)[4..4 + frameLen] && src.data == old(src.data)[4 + frameLen..];
      match deserialize(payload)
      case None => result := Error(Undecodable);
      case Some(x) => result := Item(x);
    }
  }

  // ----- Repeated decoding -----

  /** Decoded items in order, the error that ended decoding if any, and the bytes left. */
  datatype Stream<+T> = Stream(items: seq<T>, error: Option<CodecError>, rest: seq<byte>)

  function Drain<T>(max: nat, de: seq<byte> -> Option<T>, buf: seq<byte>): Stream<T>
    decreases |buf|
  {
    match DecodeStep(max, de, buf)
    case (NeedMore, rest) => Stream([], None, rest)
    case (Error(e), rest) => Stream([], Some(e), rest)
    case (Item(x), rest) => var t := Drain(max, de, rest); Stream([x] + t.items, t.error, t.rest)
  }

  /** One more chunk arrives and everything decodable is decoded; an error is final. */
  function Receive<T>(max: nat, de: seq<byte> -> Option<T>, s: Stream<T>, chunk: seq<byte>): Stream<T> {
    if s.error.Some? then s
    else var t := Drain(max, de, s.rest + chunk); Stream(s.items + t.items, t.error, t.rest)
  }

  function Feed<T>(max: nat, de: seq<byte> -> Option<T>, chunks: seq<seq<byte>>): Stream<T> {
    if chunks == [] then Stream([], None, [])
    else Receive(max, de, Feed(max, de, chunks[..|chunks| - 1]), chunks[|chunks| - 1])
  }

  function Concat(chunks: seq<seq<byte>>): seq<byte> {
    if chunks == [] then [] else Concat(chunks[..|chunks| - 1]) + chunks[|chunks| - 1]
  }

  lemma {:induction false} ConcatFront(chunks: seq<seq<byte>>)
    requires chunks != []
    ensures Concat(chunks) == chunks[0] + Concat(chunks[1..])
  {
    var n := |chunks| - 1;
    if n > 0 {
      ConcatFront(chunks[..n]);
      assert chunks[1..][..n - 1] == chunks[..n][1..];
    }
  }

  lemma NoChunk(buf: seq<byte>, chunks: seq<seq<byte>>)
    ensures buf + Concat(chunks[|chunks|..]) == buf
  {
    assert chunks[|chunks|..] == [];
  }

  lemma NextChunk(buf: seq<byte>, chunks: seq<seq<byte>>, n: nat)
    requires n < |chunks|
    ensures buf + Concat(chunks[n..]) == buf + chunks[n] + Concat(chunks[n + 1..])
  {
    hide Concat;
    ConcatFront(chunks[n..]);
    assert chunks[n..][1..] == chunks[n + 1..];
    var later := Concat(chunks[n + 1..]);
    assert buf + (chunks[n] + later) == buf + chunks[n] + later;
  }

  /** A decision once made is not changed by bytes that arrive later. */
  lemma DecodeStable<T>(max: nat, de: seq<byte> -> Option<T>, buf: seq<byte>, more: seq<byte>)
    requires !DecodeStep(max, de, buf).0.NeedMore?
    ensures DecodeStep(max, de, buf + more) == (DecodeStep(max, de, buf).0, DecodeStep(max, de, buf).1 + more)
  {
    var all := buf + more;
    assert all[..4] == buf[..4];
    var len := FromBigEndian(buf[..4]);
    if len <= max {
      assert all[4..4 + len] == buf[4..4 + len];
      assert all[4 + len..] == buf[4 + len..] + more;
    }
  }

  lemma {:induction false} DrainAppend<T>(max: nat, de: seq<byte> -> Option<T>, buf: seq<byte>, more: seq<byte>)
    ensures var s, t := Drain(max, de, buf), Drain(max, de, buf + more);
            if s.error.Some? then t.items == s.items && t.error == s.error
            else t == Receive(max, de, s, more)
    decreases |buf|
  {
    hide DecodeStep;
    var step := DecodeStep(max, de, buf);
    if !step.0.NeedMore? {
      DecodeStable(max, de, buf, more);
      if step.0.Item? {
        DrainAppend(max, de, step.1, more);
        var s := Drain(max, de, step.1);
        var t := Drain(max, de, s.rest + more);
        assert [step.0.value] + (s.items + t.items) == ([step.0.value] + s.items) + t.items;
      }
    } else {
      var t := Drain(max, de, buf + more);
      assert [] + t.items == t.items;
    }
  }

  /** Fragmentation independence: however a byte stream is cut into chunks, decoding as they
      arrive gives the items, the first error and (without error) the leftover bytes of
      decoding the whole stream at once. */
  lemma {:induction false} FragmentationIndependent<T>(max: nat, de: seq<byte> -> Option<T>, chunks: seq<seq<byte>>)
    ensures var fed, whole := Feed(max, de, chunks), Drain(max, de, Concat(chunks));
            && fed.items == whole.items && fed.error == whole.error
            && (fed.error == None ==> fed.rest == whole.rest)
  {
    if chunks != [] {
      var n := |chunks| - 1;
      FragmentationIndependent(max, de, chunks[..n]);
      DrainAppend(max, de, Concat(chunks[..n]), chunks[n]);
    }
  }

  // ----- A framed stream -----

  /** The next message of a stream that ends after the given bytes, and what follows it. NeedMore
      says that the stream is over; ending inside a frame is an error. */
  function NextOf<T>(max: nat, de: seq<byte> -> Option<T>, bytes: seq<byte>): (r: (Decoded<T>, seq<byte>))
    ensures r.0.Item? ==> |r.1| < |bytes|
  {
    var (msg, rest) := DecodeStep(max, de, bytes);
    if msg.NeedMore? && bytes != [] then (Error(BytesRemaining), rest) else (msg, rest)
  }

  /** A codec over a connection whose bytes arrive in chunks. */
  class Framed<Out, In> {
    const codec: ZkpMessageCodec<Out, In>
    const src: BytesMut
    const chunks: seq<seq<byte>>
    var arrived: nat

    constructor (codec: ZkpMessageCodec<Out, In>, chunks: seq<seq<byte>>)
      ensures Valid() && fresh(src) && this.codec == codec && this.chunks == chunks
      ensures Pending() == Concat(chunks)
    {
      this.codec, this.chunks, this.arrived := codec, chunks, 0;
      this.src := new BytesMut();
      new;
      assert chunks[0..] == chunks && [] + Concat(chunks) == Concat(chunks);
    }

    ghost predicate Valid()
      reads this
    {
      arrived <= |chunks|
    }

    /** The bytes not yet decoded, arrived or not. */
    ghost function Pending(): seq<byte>
      requires Valid()
      reads this, src
    {
      src.data + Concat(chunks[arrived..])
    }

    /** Decodes what has arrived, waiting for more where that is needed. */
    method Next() returns (msg: Decoded<In>)
      requires Valid()
      modifies this`arrived, src
      ensures Valid() && (msg, Pending()) == NextOf(codec.maxFrameSize, codec.deserialize, old(Pending()))
    {
      hide DecodeStep, Concat, HeaderLength;
      ghost var all := Pending();
      while true
        invariant Valid() && Pending() == all
        decreases |chunks| - arrived
      {
        ghost var more := Concat(chunks[arrived..]);
        ghost var buf := src.data;
        msg := codec.Decode(src);
        if !msg.NeedMore? {
          DecodeStable(codec.maxFrameSize, codec.deserialize, buf, more);
          return;
        }
        if arrived == |chunks| {
          NoChunk(src.data, chunks);
          if src.data != [] {
            msg := Error(BytesRemaining);
          }
          return;
        }
        NextChunk(buf, chunks, arrived);
        src.PutSlice(chunks[arrived]);
        arrived := arrived + 1;
      }
    }
  }

  // ----- The stream grammar -----

  function Frames(payloads: seq<seq<byte>>): seq<byte> {
    if payloads == [] then [] else Frame(payloads[0]) + Frames(payloads[1..])
  }

  predicate Admissible(max: nat, payload: seq<byte>) {
    |payload| <= max && |payload| < TWO_32
  }

  /** Bytes that hold no whole frame and announce none that is too long. */
  predicate Incomplete(max: nat, b: seq<byte>) {
    |b| < 4 || (FromBigEndian(b[..4]) <= max && |b| < 4 + FromBigEndian(b[..4]))
  }

  /** What stops decoding: an incomplete frame, an overlong header, or an unreadable frame
      with anything after it. */
  ghost predicate Stops<T>(max: nat, de: seq<byte> -> Option<T>, tail: seq<byte>, error: Option<CodecError>,
                           rest: seq<byte>) {
    match error
    case None => tail == rest && Incomplete(max, rest)
    case Some(FrameTooLong(len)) => tail == rest && |rest| >= 4 && FromBigEndian(rest[..4]) == len && len > max
    case Some(Undecodable) => exists bad :: Admissible(max, bad) && de(bad) == None && tail == Frame(bad) + rest
    case Some(_) => false
  }

  /** A stream is readable frames, then a tail that stops decoding. */
  ghost predicate Grammar<T>(max: nat, de: seq<byte> -> Option<T>, stream: seq<byte>,
                             payloads: seq<seq<byte>>, tail: seq<byte>, s: Stream<T>) {
    && stream == Frames(payloads) + tail
    && |payloads| == |s.items|
    && (forall i :: 0 <= i < |payloads| ==> Admissible(max, payloads[i]) && de(payloads[i]) == Some(s.items[i]))
    && Stops(max, de, tail, s.error, s.rest)
  }

  lemma HeaderValue(n: nat)
    requires n < TWO_32
    ensures FromBigEndian(BigEndian(n, 4)) == n
  {
    Pow256Of4();
    BigEndianRoundTrip(n, 4);
  }

  lemma HeaderReads(payload: seq<byte>, buf: seq<byte>)
    requires |payload| < TWO_32 && |buf| >= 4 && buf[..4] == Frame(payload)[..4]
    ensures FromBigEndian(buf[..4]) == |payload|
  {
    hide BigEndian, FromBigEndian;
    HeaderValue(|payload|);
    assert Frame(payload)[..4] == BigEndian(|payload|, 4);
  }

  lemma HeaderBytes(header: seq<byte>)
    requires |header| == 4
    ensures FromBigEndian(header) < TWO_32 && BigEndian(FromBigEndian(header), 4) == header
  {
    hide BigEndian, FromBigEndian;
    Pow256Of4();
    FromBigEndianRoundTrip(header);
  }

  lemma HeaderWrites(header: seq<byte>, payload: seq<byte>)
    requires |header| == 4 && FromBigEndian(header) == |payload|
    ensures |payload| < TWO_32 && Frame(payload) == header + payload
  {
    hide BigEndian, FromBigEndian;
    HeaderBytes(header);
  }

  /** A whole frame at the front of the buffer is taken off, whatever follows. */
  lemma DecodeFrame<T>(max: nat, de: seq<byte> -> Option<T>, payload: seq<byte>, tail: seq<byte>)
    requires Admissible(max, payload)
    ensures DecodeStep(max, de, Frame(payload) + tail) ==
              (match de(payload) case None => Error(Undecodable) case Some(x) => Item(x), tail)
  {
    var buf := Frame(payload) + tail;
    assert buf[..4] == Frame(payload)[..4];
    HeaderReads(payload, buf);
    assert buf[4..4 + |payload|] == payload && buf[4 + |payload|..] == tail;
  }

  /** A decided step took a whole frame off, or met an overlong header. */
  lemma DecodedFrame<T>(max: nat, de: seq<byte> -> Option<T>, buf: seq<byte>) returns (payload: seq<byte>)
    requires var r := DecodeStep(max, de, buf).0; r.Item? || r == Error(Undecodable)
    ensures Admissible(max, payload) && buf == Frame(payload) + DecodeStep(max, de, buf).1
    ensures DecodeStep(max, de, buf).0 == match de(payload) case None => Error(Undecodable) case Some(x) => Item(x)
  {
    var len := FromBigEndian(buf[..4]);
    payload := buf[4..4 + len];
    HeaderWrites(buf[..4], payload);
    assert buf == (buf[..4] + payload) + buf[4 + len..];
  }

  lemma DrainCons<T>(max: nat, de: seq<byte> -> Option<T>, payload: seq<byte>, x: T, tail: seq<byte>)
    requires Admissible(max, payload) && de(payload) == Some(x)
    ensures var t := Drain(max, de, tail);
            Drain(max, de, Frame(payload) + tail) == Stream([x] + t.items, t.error, t.rest)
  {
    DecodeFrame(max, de, payload, tail);
  }

  /** One frame and nothing else. */
  lemma DrainSingle<T>(max: nat, de: seq<byte> -> Option<T>, payload: seq<byte>, x: T)
    requires Admissible(max, payload) && de(payload) == Some(x)
    ensures Drain(max, de, Frame(payload)) == Stream([x], None, [])
  {
    DrainCons(max, de, payload, x, []);
    assert Frame(payload) + [] == Frame(payload);
  }

  lemma FramesCons(payload: seq<byte>, payloads: seq<seq<byte>>, tail: seq<byte>)
    ensures Frames([payload] + payloads) + tail == Frame(payload) + (Frames(payloads) + tail)
  {
    assert ([payload] + payloads)[1..] == payloads;
  }

  lemma GrammarStops<T>(max: nat, de: seq<byte> -> Option<T>, stream: seq<byte>)
    requires !DecodeStep(max, de, stream).0.Item?
    ensures Grammar(max, de, stream, [], stream, Drain(max, de, stream))
  {
    assert stream == Frames([]) + stream;
    if DecodeStep(max, de, stream).0 == Error(Undecodable) {
      var bad := DecodedFrame(max, de, stream);
    }
  }

  lemma GrammarCons<T>(max: nat, de: seq<byte> -> Option<T>, payload: seq<byte>, x: T, rest: seq<byte>,
                       later: seq<seq<byte>>, tail: seq<byte>, s: Stream<T>)
    requires Admissible(max, payload) && de(payload) == Some(x) && Grammar(max, de, rest, later, tail, s)
    ensures Grammar(max, de, Frame(payload) + rest, [payload] + later, tail, Stream([x] + s.items, s.error, s.rest))
  {
    hide Frame, Stops;
    FramesCons(payload, later, tail);
  }

  /** Decoding a stream whole reads it by the grammar ... */
  lemma {:induction false} DrainParses<T>(max: nat, de: seq<byte> -> Option<T>, stream: seq<byte>)
    returns (payloads: seq<seq<byte>>, tail: seq<byte>)
    ensures Grammar(max, de, stream, payloads, tail, Drain(max, de, stream))
    decreases |stream|
  {
    hide DecodeStep, Grammar, Frame;
    var (r, rest) := DecodeStep(max, de, stream);
    if r.Item? {
      var payload := DecodedFrame(max, de, stream);
      var later;
      later, tail := DrainParses(max, de, rest);
      payloads := [payload] + later;
      GrammarCons(max, de, payload, r.value, rest, later, tail, Drain(max, de, rest));
    } else {
      payloads, tail := [], stream;
      GrammarStops(max, de, stream);
    }
  }

  lemma StopDecodes<T>(max: nat, de: seq<byte> -> Option<T>, tail: seq<byte>, error: Option<CodecError>,
                       rest: seq<byte>)
    requires Stops(max, de, tail, error, rest)
    ensures Drain(max, de, tail) == Stream([], error, rest)
  {
    if error == Some(Undecodable) {
      var bad :| Admissible(max, bad) && de(bad) == None && tail == Frame(bad) + rest;
      DecodeFrame(max, de, bad, rest);
    }
  }

  /** ... and every reading by the grammar is that one. */
  lemma {:induction false} GrammarUnambiguous<T>(max: nat, de: seq<byte> -> Option<T>, stream: seq<byte>,
                                                 payloads: seq<seq<byte>>, tail: seq<byte>, s: Stream<T>)
    requires Grammar(max, de, stream, payloads, tail, s)
    ensures s == Drain(max, de, stream)
    decreases |payloads|
  {
    if payloads == [] {
      assert stream == tail;
      StopDecodes(max, de, tail, s.error, s.rest);
    } else {
      var payload, later := payloads[0], payloads[1..];
      assert payloads == [payload] + later;
      FramesCons(payload, later, tail);
      GrammarUnambiguous(max, de, Frames(later) + tail, later, tail, Stream(s.items[1..], s.error, s.rest));
      DrainCons(max, de, payload, s.items[0], Frames(later) + tail);
      assert s.items == [s.items[0]] + s.items[1..];
    }
  }

  // ----- Encoding and decoding -----

  /** An encoded message reads back, leaving what follows it, exactly when its length fits the
      32-bit header; the frame limit alone does not promise that. */
  lemma RoundTripExact<T>(max: nat, de: seq<byte> -> Option<T>, payload: seq<byte>, x: T, tail: seq<byte>)
    requires |payload| <= max && de(payload) == Some(x)
    ensures DecodeStep(max, de, EncodeStep(max, payload).value + tail) == (Item(x), tail) <==> |payload| < TWO_32
  {
    if |payload| < TWO_32 {
      DecodeFrame(max, de, payload, tail);
    } else {
      var buf := Frame(payload) + tail;
      var len := |payload| % TWO_32;
      HeaderValue(len);
      assert buf[..4] == BigEndian(len, 4);
      assert |buf[4 + len..]| > |tail|;
    }
  }

  /** A message the decoder can give back. */
  ghost predicate Sendable<T>(max: nat, ser: T -> seq<byte>, de: seq<byte> -> Option<T>, x: T) {
    Admissible(max, ser(x)) && de(ser(x)) == Some(x)
  }

  function Payloads<T>(ser: T -> seq<byte>, items: seq<T>): seq<seq<byte>> {
    seq(|items|, i requires 0 <= i < |items| => ser(items[i]))
  }

  lemma {:induction false} FramesAppend(a: seq<seq<byte>>, b: seq<seq<byte>>)
    ensures Frames(a + b) == Frames(a) + Frames(b)
  {
    if a == [] {
      assert a + b == b;
    } else {
      FramesAppend(a[1..], b);
      assert a == [a[0]] + a[1..] && a + b == [a[0]] + (a[1..] + b);
      FramesCons(a[0], a[1..], Frames(b));
    }
  }

  /** Fewer bytes than one frame are an incomplete frame. */
  lemma ShortIsIncomplete(max: nat, payload: seq<byte>, tail: seq<byte>)
    requires Admissible(max, payload) && tail < Frame(payload)
    ensures Incomplete(max, tail)
  {
    if |tail| >= 4 {
      assert tail[..4] == Frame(payload)[..4];
      HeaderReads(payload, tail);
    }
  }

  /** Cutting a stream of frames at n leaves the frames that end by n and a part of the next. */
  lemma CutFrames(payloads: seq<seq<byte>>, n: nat, k: nat) returns (tail: seq<byte>)
    requires k <= |payloads| && |Frames(payloads[..k])| <= n <= |Frames(payloads)|
    requires k < |payloads| ==> n < |Frames(payloads[..k + 1])|
    ensures Frames(payloads)[..n] == Frames(payloads[..k]) + tail
    ensures Frames(payloads)[|Frames(payloads[..k])|..n] == tail
    ensures if k == |payloads| then tail == [] else tail < Frame(payloads[k])
  {
    hide Frame;
    var done := Frames(payloads[..k]);
    assert payloads == payloads[..k] + payloads[k..];
    FramesAppend(payloads[..k], payloads[k..]);
    tail := Frames(payloads)[|done|..n];
    if k < |payloads| {
      assert payloads[..k + 1] == payloads[..k] + [payloads[k]];
      FramesAppend(payloads[..k], [payloads[k]]);
      FramesCons(payloads[k], [], []);
      assert Frames([payloads[k]]) == Frame(payloads[k]);
      assert tail == Frames(payloads[k..])[..n - |done|];
    }
  }

  /** How many frames end within the first n bytes. */
  lemma {:induction false} CompleteFrames(payloads: seq<seq<byte>>, n: nat) returns (k: nat)
    requires n <= |Frames(payloads)|
    ensures k <= |payloads| && |Frames(payloads[..k])| <= n
    ensures k < |payloads| ==> n < |Frames(payloads[..k + 1])|
  {
    k := |payloads|;
    assert payloads[..k] == payloads;
    while n < |Frames(payloads[..k])|
      invariant k <= |payloads|
      invariant k < |payloads| ==> n < |Frames(payloads[..k + 1])|
      decreases k
    {
      assert payloads[..0] == [];
      k := k - 1;
    }
  }

  /** After any prefix of an encoded stream, the decoder has produced exactly the messages whose
      frames lie wholly inside it, the first k, and keeps the bytes of the next one. */
  lemma PrefixRoundTrip<T>(max: nat, ser: T -> seq<byte>, de: seq<byte> -> Option<T>, items: seq<T>, n: nat)
    returns (k: nat)
    requires forall i :: 0 <= i < |items| ==> Sendable(max, ser, de, items[i])
    requires n <= |Frames(Payloads(ser, items))|
    ensures var payloads := Payloads(ser, items);
            && k <= |items| && |Frames(payloads[..k])| <= n
            && (k < |items| ==> n < |Frames(payloads[..k + 1])|)
            && Drain(max, de, Frames(payloads)[..n]) ==
                 Stream(items[..k], None, Frames(payloads)[|Frames(payloads[..k])|..n])
  {
    var payloads := Payloads(ser, items);
    assert forall i :: 0 <= i < |items| ==> payloads[i] == ser(items[i]) && Sendable(max, ser, de, items[i]);
    k := CompleteFrames(payloads, n);
    var tail := CutFrames(payloads, n, k);
    if k < |items| { ShortIsIncomplete(max, payloads[k], tail); }
    GrammarUnambiguous(max, de, Frames(payloads)[..n], payloads[..k], tail, Stream(items[..k], None, tail));
  }

  /** Messages encoded in turn and delivered in any chunks come out as sent, and nothing is left. */
  lemma StreamRoundTrip<T>(max: nat, ser: T -> seq<byte>, de: seq<byte> -> Option<T>, items: seq<T>,
                           chunks: seq<seq<byte>>)
    requires forall i :: 0 <= i < |items| ==> Sendable(max, ser, de, items[i])
    requires Concat(chunks) == Frames(Payloads(ser, items))
    ensures Feed(max, de, chunks) == Stream(items, None, [])
  {
    hide Feed, Drain, Frames, Sendable;
    var payloads := Payloads(ser, items);
    var stream := Frames(payloads);
    assert stream[..|stream|] == stream;
    var k := PrefixRoundTrip(max, ser, de, items, |stream|);
    if k < |items| { FramesGrow(payloads, k + 1); }
    assert items[..|items|] == items && payloads[..|items|] == payloads;
    FragmentationIndependent(max, de, chunks);
  }

  lemma FramesGrow(payloads: seq<seq<byte>>, k: nat)
    requires k <= |payloads|
    ensures |Frames(payloads[..k])| <= |Frames(payloads)|
  {
    assert payloads == payloads[..k] + payloads[k..];
    FramesAppend(payloads[..k], payloads[k..]);
  }
}
