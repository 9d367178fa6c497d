/**
 HAP-BLE transactions: a request arrives as a first fragment and continuations, the response leaves
 the same way. Whatever the sizes of the fragments, the body arrives as it was sent.
 */
module Transactions {
  import opened Bytes
  import opened Options
  import opened Pdu

  type Body = b: seq<byte> | |b| <= UINT16_MAX

  /** A request of which `body` has been received so far. */
  datatype Reading = Reading(opcode: byte, tid: byte, iid: uint16, total: uint16, body: seq<byte>)

  /** A response of which the first `offset` bytes of the body have been sent. */
  datatype Writing = Writing(tid: byte, status: byte, body: Option<Body>, started: bool, offset: nat)

  function BytesOf(body: Option<Body>): Body {
    if body.None? then [] else body.value
  }

  predicate WritingValid(w: Writing) {
    w.offset <= |BytesOf(w.body)| && (!w.started ==> w.offset == 0)
  }

  // ---- Receiving ----

  ghost function ReceiveFirst(packet: seq<byte>): Option<Reading> {
    match Decoded(packet)
    case None => None
    case Some(p) =>
      match p.header
      case RequestHeader(opcode, tid, iid) => Some(Reading(opcode, tid, iid, p.total, BodyOf(p)))
      case _ => None
  }

  ghost function ReceiveNext(r: Reading, packet: seq<byte>): Option<Reading> {
    match DecodedContinuation(packet, Request, r.total, |r.body|)
    case None => None
    case Some(p) => if p.header.tid != r.tid then None else Some(r.(body := r.body + BodyOf(p)))
  }

  ghost function ReceiveAll(r: Reading, packets: seq<seq<byte>>): Option<Reading>
    decreases |packets|
  {
    if packets == [] then Some(r)
    else
      match ReceiveNext(r, packets[0])
      case None => None
      case Some(next) => ReceiveAll(next, packets[1..])
  }

  function Flatten(chunks: seq<seq<byte>>): seq<byte> {
    if chunks == [] then [] else chunks[0] + Flatten(chunks[1..])
  }

  function Continuations(kind: Kind, tid: byte, total: uint16, chunks: seq<seq<byte>>): seq<seq<byte>> {
    if chunks == [] then []
    else
      [Encode(Pdu(ContinuationHeader(kind, tid), total, Some(chunks[0])))]
      + Continuations(kind, tid, total, chunks[1..])
  }

  /** An empty fragment looks like one without a body. */
  lemma ContinuationParses(kind: Kind, tid: byte, total: uint16, soFar: nat, chunk: seq<byte>)
    requires soFar + |chunk| <= total
    ensures var r := DecodedContinuation(
                       Encode(Pdu(ContinuationHeader(kind, tid), total, Some(chunk))), kind, total, soFar);
            r.Some? && r.value.header.tid == tid && BodyOf(r.value) == chunk
  {
    var p := Pdu(ContinuationHeader(kind, tid), total, if chunk == [] then None else Some(chunk));
    assert Encode(p) == Encode(p.(body := Some(chunk)));
    DecodedContinuationOfEncode(p, kind, total, soFar);
  }

  lemma {:induction false} ContinuationsReceived(r: Reading, chunks: seq<seq<byte>>)
    requires |r.body| + |Flatten(chunks)| <= r.total
    ensures ReceiveAll(r, Continuations(Request, r.tid, r.total, chunks))
            == Some(r.(body := r.body + Flatten(chunks)))
    decreases |chunks|
  {
    if chunks == [] {
      assert r.body + [] == r.body;
    } else {
      ContinuationParses(Request, r.tid, r.total, |r.body|, chunks[0]);
      var next := r.(body := r.body + chunks[0]);
      ContinuationsReceived(next, chunks[1..]);
      Associative(r.body, chunks[0], Flatten(chunks[1..]));
      assert Continuations(Request, r.tid, r.total, chunks)[1..]
             == Continuations(Request, r.tid, r.total, chunks[1..]);
    }
  }

  /**
   For every split of a body into a first fragment and any number of continuations, empty ones
   included, the receiver ends with the header and the whole body.
   */
  lemma SplitRequestIsReassembled(
    opcode: byte, tid: byte, iid: uint16, body: Body, first: seq<byte>, chunks: seq<seq<byte>>)
    requires first + Flatten(chunks) == body
    ensures var r := ReceiveFirst(Encode(Pdu(RequestHeader(opcode, tid, iid), |body|, Some(first))));
            && r.Some?
            && ReceiveAll(r.value, Continuations(Request, tid, |body|, chunks))
               == Some(Reading(opcode, tid, iid, |body|, body))
  {
    DecodedOfEncode(Pdu(RequestHeader(opcode, tid, iid), |body|, Some(first)));
    ContinuationsReceived(Reading(opcode, tid, iid, |body|, first), chunks);
  }

  /**
   A continuation is accepted exactly when it has the transaction ID of the request and brings no more than
   what is missing, and then it is appended.
   */
  lemma ContinuationAcceptedExactlyWhen(r: Reading, packet: seq<byte>)
    requires |r.body| <= r.total
    ensures var accepted := |packet| >= 2 && packet[0] == 0x80 && packet[1] == r.tid
                            && |r.body| + |packet| - 2 <= r.total;
            ReceiveNext(r, packet) == if accepted then Some(r.(body := r.body + packet[2..])) else None
  {
    if |packet| >= 2 && packet[0] == 0x80 && |r.body| + |packet| - 2 <= r.total {
      EncodedBytes(0, packet[1], 0, 0, r.total, packet[2..]);
      assert packet == [0x80, packet[1]] + packet[2..];
      ContinuationParses(Request, packet[1], r.total, |r.body|, packet[2..]);
    } else {
      forall p | ProperContinuation(p, Request, r.total, |r.body|)
        ensures Encode(p) != packet
      {
        EncodedBytes(0, p.header.tid, 0, 0, r.total, BodyOf(p));
        EncodedBytesWithoutBody(0, p.header.tid, 0, 0, r.total);
      }
    }
  }

  /** The number of two bytes. */
  function NumberOf(low: byte, high: byte): uint16 {
    (low as int) + 0x100 * (high as int)
  }

  /** A request of which all the body is there, or a part that is no longer than its length. */
  predicate IsRequest(b: seq<byte>) {
    |b| >= 5 && b[0] == 0x00 && (|b| == 5 || (|b| >= 7 && |b| - 7 <= NumberOf(b[5], b[6])))
  }

  /** A request begins exactly with a first fragment: the header alone, or a length and at most as many bytes. */
  lemma RequestAcceptedExactlyWhen(b: seq<byte>)
    ensures ReceiveFirst(b).Some? <==> IsRequest(b)
    ensures IsRequest(b) ==>
              ReceiveFirst(b).value ==
              Reading(b[1], b[2], NumberOf(b[3], b[4]), if |b| == 5 then 0 else NumberOf(b[5], b[6]),
                      if |b| == 5 then [] else b[7..])
  {
    if IsRequest(b) {
      var body := if |b| == 5 then None else Some(b[7..]);
      RequestParses(b, b[1], b[2], NumberOf(b[3], b[4]), if |b| == 5 then 0 else NumberOf(b[5], b[6]), body);
    } else if Decoded(b).Some? && Decoded(b).value.header.RequestHeader? {
      NoOtherRequest(b, Decoded(b).value);
    }
  }

  lemma RequestParses(b: seq<byte>, opcode: byte, tid: byte, iid: uint16, total: uint16, body: Option<seq<byte>>)
    requires |b| >= 5 && b[..5] == [0x00, opcode, tid, iid % 0x100, iid / 0x100]
    requires if body.None? then b[5..] == [] && total == 0
             else b[5..] == [total % 0x100, total / 0x100] + body.value && |body.value| <= total
    ensures ReceiveFirst(b) ==
            Some(Reading(opcode, tid, iid, total, BodyOf(Pdu(RequestHeader(opcode, tid, iid), total, body))))
  {
    var p := Pdu(RequestHeader(opcode, tid, iid), total, body);
    EncodedBytes(opcode, tid, iid, 0, total, BodyOf(p));
    EncodedBytesWithoutBody(opcode, tid, iid, 0, total);
    assert b == b[..5] + b[5..];
    assert Encode(p) == b;
    DecodedOfEncode(p);
  }

  lemma NoOtherRequest(b: seq<byte>, p: Pdu)
    requires ProperFirst(p) && p.header.RequestHeader? && Encode(p) == b
    ensures IsRequest(b)
  {
    var h := p.header;
    EncodedBytes(h.opcode, h.tid, h.iid, 0, p.total, BodyOf(p));
    EncodedBytesWithoutBody(h.opcode, h.tid, h.iid, 0, p.total);
  }

  /** However the packets come about, the receiver never takes more than the announced length. */
  lemma {:induction false} ReceivedWithinTotal(r: Reading, packets: seq<seq<byte>>)
    requires |r.body| <= r.total
    ensures var t := ReceiveAll(r, packets);
            t.Some? ==> r.body <= t.value.body && |t.value.body| <= t.value.total == r.total && t.value.tid == r.tid
    decreases |packets|
  {
    if packets != [] && ReceiveNext(r, packets[0]).Some? {
      ReceivedWithinTotal(ReceiveNext(r, packets[0]).value, packets[1..]);
    }
  }

  // ---- Sending ----

  function HeaderBytes(w: Writing): nat {
    if w.started then 2 else 3 + if BytesOf(w.body) == [] then 0 else 2
  }

  function FragmentLength(w: Writing, max: nat): nat
    requires WritingValid(w) && max >= HeaderBytes(w)
  {
    var rest := |BytesOf(w.body)| - w.offset;
    if max - HeaderBytes(w) < rest then max - HeaderBytes(w) else rest
  }

  /** The next fragment of a response that fits a buffer of `max` bytes. */
  function Fragment(w: Writing, max: nat): Pdu
    requires WritingValid(w) && max >= HeaderBytes(w)
  {
    var chunk := BytesOf(w.body)[w.offset..w.offset + FragmentLength(w, max)];
    Pdu(if w.started then ContinuationHeader(Response, w.tid) else ResponseHeader(w.tid, w.status),
        |BytesOf(w.body)|, if w.body.None? then None else Some(chunk))
  }

  /** The packet sent, and the response after it; `None` when the buffer is too small. */
  function Send(w: Writing, max: nat): (r: Option<(seq<byte>, Writing)>)
    requires WritingValid(w)
    ensures r.Some? ==> WritingValid(r.value.1) && |r.value.0| <= max
  {
    if max < HeaderBytes(w) || |Encode(Fragment(w, max))| > max then None
    else Some((Encode(Fragment(w, max)), w.(started := true, offset := w.offset + FragmentLength(w, max))))
  }

  /** What a controller collects from the packets of a response: the header and the body so far. */
  datatype Collected = Collected(tid: byte, status: byte, total: uint16, body: seq<byte>)

  ghost function CollectFirst(packet: seq<byte>): Option<Collected> {
    match Decoded(packet)
    case None => None
    case Some(p) =>
      match p.header
      case ResponseHeader(tid, status) => Some(Collected(tid, status, p.total, BodyOf(p)))
      case _ => None
  }

  ghost function CollectNext(c: Collected, packet: seq<byte>): Option<Collected> {
    match DecodedContinuation(packet, Response, c.total, |c.body|)
    case None => None
    case Some(p) => if p.header.tid != c.tid then None else Some(c.(body := c.body + BodyOf(p)))
  }

  /** What has been sent of a response, as a controller sees it. */
  function Sent(w: Writing): Collected
    requires WritingValid(w)
  {
    Collected(w.tid, w.status, |BytesOf(w.body)|, BytesOf(w.body)[..w.offset])
  }

  /**
   Every packet of a response, whatever the size of the buffer it is written to, extends what the
   controller has collected to exactly what has been sent.
   */
  lemma PacketIsCollected(w: Writing, max: nat)
    requires WritingValid(w) && Send(w, max).Some?
    ensures var (packet, next) := Send(w, max).value;
            (if w.started then CollectNext(Sent(w), packet) else CollectFirst(packet)) == Some(Sent(next))
  {
    var p := Fragment(w, max);
    var b := BytesOf(w.body);
    if w.started {
      var chunk := b[w.offset..w.offset + FragmentLength(w, max)];
      ContinuationParses(Response, w.tid, |b|, w.offset, chunk);
      assert w.body.None? ==> chunk == [] && Encode(p) == Encode(p.(body := Some([])));
      assert b[..w.offset] + chunk == b[..w.offset + FragmentLength(w, max)];
    } else {
      DecodedOfEncode(p);
      assert b[..0] == [];
    }
  }

  /** A fragment takes all the room that its buffer has, unless it is the last one. */
  lemma FragmentFillsBuffer(w: Writing, max: nat)
    requires WritingValid(w) && Send(w, max).Some?
    ensures var (packet, next) := Send(w, max).value;
            |packet| == max || next.offset == |BytesOf(w.body)|
  {
    EncodeParts(Fragment(w, max));
  }

  /** A buffer is refused exactly when it lacks room for the header or, in the first packet, for the body length. */
  lemma SendRefusedExactlyWhen(w: Writing, max: nat)
    requires WritingValid(w)
    ensures Send(w, max).None? <==> max < if w.started then 2 else if w.body.Some? then 5 else 3
  {
    if max >= HeaderBytes(w) {
      EncodeParts(Fragment(w, max));
    }
  }

  /** The whole exchange: packets sent through buffers of the given sizes, collected one by one. */
  ghost function Exchange(w: Writing, c: Collected, sizes: seq<nat>): Option<(Writing, Collected)>
    requires WritingValid(w)
    decreases |sizes|
  {
    if sizes == [] then Some((w, c))
    else
      match Send(w, sizes[0])
      case None => None
      case Some(sent) =>
        match CollectNext(c, sent.0)
        case None => None
        case Some(next) => Exchange(sent.1, next, sizes[1..])
  }

  /** Every buffer holds at least `n` bytes. */
  predicate AtLeast(sizes: seq<nat>, n: nat) {
    forall i :: 0 <= i < |sizes| ==> sizes[i] >= n
  }

  lemma {:induction false} ContinuationsCollected(w: Writing, sizes: seq<nat>)
    requires WritingValid(w) && w.started && AtLeast(sizes, 2)
    ensures var r := Exchange(w, Sent(w), sizes);
            && r.Some? && WritingValid(r.value.0) && r.value.1 == Sent(r.value.0)
            && r.value.0.body == w.body && r.value.0.offset >= w.offset
    decreases |sizes|
  {
    if sizes != [] {
      PacketIsCollected(w, sizes[0]);
      ContinuationsCollected(Send(w, sizes[0]).value.1, sizes[1..]);
    }
  }

  /** With buffers of at least three bytes every packet sends a byte, until the whole body is sent. */
  lemma {:induction false} ContinuationsProgress(w: Writing, sizes: seq<nat>)
    requires WritingValid(w) && w.started && AtLeast(sizes, 3)
    ensures var r := Exchange(w, Sent(w), sizes);
            r.Some? && (r.value.0.offset >= |BytesOf(w.body)| || r.value.0.offset >= w.offset + |sizes|)
    decreases |sizes|
  {
    if sizes != [] {
      PacketIsCollected(w, sizes[0]);
      var next := Send(w, sizes[0]).value.1;
      assert next.offset == |BytesOf(w.body)| || next.offset >= w.offset + 1;
      ContinuationsCollected(next, sizes[1..]);
      ContinuationsProgress(next, sizes[1..]);
    }
  }

  /**
   A response sent through buffers of any sizes that hold the headers is collected without loss: the
   controller ends with the status and with exactly the part of the body that was sent, which is the
   whole body when there were enough buffers.
   */
  lemma ResponseIsCollected(tid: byte, status: byte, body: Option<Body>, first: nat, sizes: seq<nat>)
    requires var w := Writing(tid, status, body, false, 0); Send(w, first).Some?
    requires AtLeast(sizes, 2)
    ensures var (packet, w) := Send(Writing(tid, status, body, false, 0), first).value;
            var c := CollectFirst(packet);
            && c.Some? && Exchange(w, c.value, sizes).Some?
            && var (t, collected) := Exchange(w, c.value, sizes).value;
            && t.offset <= |BytesOf(body)|
            && collected == Collected(tid, status, |BytesOf(body)|, BytesOf(body)[..t.offset])
            && (AtLeast(sizes, 3) && |sizes| >= |BytesOf(body)| ==> collected.body == BytesOf(body))
  {
    var w := Writing(tid, status, body, false, 0);
    PacketIsCollected(w, first);
    RestIsCollected(Send(w, first).value.1, sizes);
  }

  lemma RestIsCollected(w: Writing, sizes: seq<nat>)
    requires WritingValid(w) && w.started && AtLeast(sizes, 2)
    ensures var r := Exchange(w, Sent(w), sizes);
            && r.Some?
            && var (t, collected) := r.value;
            && t.offset <= |BytesOf(w.body)|
            && collected == Collected(w.tid, w.status, |BytesOf(w.body)|, BytesOf(w.body)[..t.offset])
            && (AtLeast(sizes, 3) && |sizes| >= |BytesOf(w.body)| ==> collected.body == BytesOf(w.body))
  {
    ContinuationsCollected(w, sizes);
    HeaderStays(w, Sent(w), sizes);
    if AtLeast(sizes, 3) {
      ContinuationsProgress(w, sizes);
    }
  }

  lemma {:induction false} HeaderStays(w: Writing, c: Collected, sizes: seq<nat>)
    requires WritingValid(w)
    ensures var r := Exchange(w, c, sizes);
            r.Some? ==> WritingValid(r.value.0) && r.value.0.tid == w.tid && r.value.0.status == w.status
                        && r.value.0.body == w.body
    decreases |sizes|
  {
    if sizes != [] && Send(w, sizes[0]).Some? && CollectNext(c, Send(w, sizes[0]).value.0).Some? {
      var sent := Send(w, sizes[0]).value;
      HeaderStays(sent.1, CollectNext(c, sent.0).value, sizes[1..]);
    }
  }

  // ---- The transaction object ----

  datatype Phase =
    | WaitingForInitialWrite
    | ReadingRequest
    | HandlingRequest
    | WaitingForInitialRead
    | WritingResponse

  datatype WriteResult = Accepted | Malformed | InvalidState

  class Transaction {
    var phase: Phase

    // Request.
    var opcode: byte
    var tid: byte
    var iid: uint16
    var totalBodyBytes: uint16
    var bodyOffset: nat
    const bodyBytes: array<byte>
    ghost var received: seq<byte>

    // Response.
    var status: byte
    var responseBody: Option<Body>
    var responseOffset: nat

    ghost predicate Valid()
      reads this, bodyBytes
    {
      && |received| == bodyOffset <= totalBodyBytes
      && (totalBodyBytes <= bodyBytes.Length ==> bodyBytes[..bodyOffset] == received)
      && WritingValid(CurrentWriting())
      && (phase == WaitingForInitialWrite ==> bodyOffset == 0 && totalBodyBytes == 0 && responseOffset == 0)
    }

    ghost function CurrentReading(): Reading
      reads this
    {
      Reading(opcode, tid, iid, totalBodyBytes, received)
    }

    function CurrentWriting(): Writing
      reads this
    {
      Writing(tid, status, responseBody, phase == WritingResponse, responseOffset)
    }

    constructor (bodyBytes: array<byte>)
      ensures Valid() && phase == WaitingForInitialWrite && this.bodyBytes == bodyBytes
    {
      phase := WaitingForInitialWrite;
      opcode, tid, iid, totalBodyBytes, bodyOffset, received := 0, 0, 0, 0, 0, [];
      status, responseBody, responseOffset := 0, None, 0;
      this.bodyBytes := bodyBytes;
    }

    /** Appends a fragment, unless the whole body does not fit the buffer. */
    method TryAppendBodyFragment(fragment: seq<byte>)
      requires Valid() && bodyOffset + |fragment| <= totalBodyBytes
      modifies this`bodyOffset, this`received, bodyBytes
      ensures Valid() && received == old(received) + fragment
    {
      if totalBodyBytes <= bodyBytes.Length {
        var next := Put(bodyBytes, bodyOffset, fragment);
      }
      bodyOffset := bodyOffset + |fragment|;
      received := received + fragment;
    }

    method HandleInitialWrite(bytes: seq<byte>) returns (ok: bool)
      requires Valid() && phase == WaitingForInitialWrite
      modifies this, bodyBytes
      ensures Valid() && phase == ReadingRequest
      ensures ok <==> ReceiveFirst(bytes).Some?
      ensures ok ==> CurrentReading() == ReceiveFirst(bytes).value
    {
      phase := ReadingRequest;
      var p := Deserialize(bytes);
      if p.None? { return false; }
      if !p.value.header.RequestHeader? { return false; }
      CacheHeader(p.value.header, p.value.total);
      TryAppendBodyFragment(BodyOf(p.value));
      return true;
    }

    /** Keeps the header of a request, which its continuations do not repeat. */
    method CacheHeader(header: Header, total: uint16)
      requires Valid() && phase == ReadingRequest && header.RequestHeader?
      modifies this
      ensures Valid() && phase == ReadingRequest
      ensures CurrentReading() == Reading(header.opcode, header.tid, header.iid, total, [])
    {
      opcode, tid, iid := header.opcode, header.tid, header.iid;
      totalBodyBytes := total;
      bodyOffset := 0;
      received := [];
    }

    method HandleContinuationWrite(bytes: seq<byte>) returns (ok: bool)
      requires Valid() && phase == ReadingRequest
      modifies this, bodyBytes
      ensures Valid() && phase == ReadingRequest
      ensures ok <==> ReceiveNext(old(CurrentReading()), bytes).Some?
      ensures CurrentReading() == if ok then ReceiveNext(old(CurrentReading()), bytes).value else old(CurrentReading())
    {
      var p := DeserializeContinuation(bytes, Request, totalBodyBytes, bodyOffset);
      if p.None? { return false; }
      if p.value.header.tid != tid { return false; }
      TryAppendBodyFragment(BodyOf(p.value));
      return true;
    }

    /** The transaction ID of the response. Until it is set, its place in memory holds the opcode of the request. */
    function ResponseTid(): byte
      reads this
    {
      if phase == HandlingRequest then opcode else tid
    }

    /** A write after the whole request has arrived: only an empty continuation is accepted. */
    method HandleLateWrite(bytes: seq<byte>) returns (ok: bool)
      ensures ok <==> bytes == Encode(Pdu(ContinuationHeader(Request, ResponseTid()), 0, None))
    {
      var p := DeserializeContinuation(bytes, Request, 0, 0);
      if p.None? {
        assert ProperContinuation(Pdu(ContinuationHeader(Request, ResponseTid()), 0, None), Request, 0, 0);
        return false;
      }
      assert p.value == Pdu(ContinuationHeader(Request, p.value.header.tid), 0, None);
      assert Encode(p.value)[1] == p.value.header.tid;
      return p.value.header.tid == ResponseTid();
    }

    /** Takes a packet. */
    method HandleWrite(bytes: seq<byte>) returns (r: WriteResult)
      requires Valid()
      modifies this, bodyBytes
      ensures Valid()
      ensures match old(phase)
              case WaitingForInitialWrite =>
                && phase == ReadingRequest
                && r == (if ReceiveFirst(bytes).Some? then Accepted else Malformed)
                && (r == Accepted ==> CurrentReading() == ReceiveFirst(bytes).value)
              case ReadingRequest =>
                && phase == ReadingRequest
                && r == (if ReceiveNext(old(CurrentReading()), bytes).Some? then Accepted else Malformed)
                && CurrentReading() == (if r == Accepted then ReceiveNext(old(CurrentReading()), bytes).value
                                        else old(CurrentReading()))
              case HandlingRequest =>
                && unchanged(this) && r != InvalidState
                && (r == Accepted <==> bytes == Encode(Pdu(ContinuationHeader(Request, opcode), 0, None)))
              case WaitingForInitialRead =>
                && unchanged(this) && r != InvalidState
                && (r == Accepted <==> bytes == Encode(Pdu(ContinuationHeader(Request, tid), 0, None)))
              case WritingResponse =>
                r == InvalidState && unchanged(this)
    {
      var ok;
      match phase {
        case WaitingForInitialWrite => ok := HandleInitialWrite(bytes);
        case ReadingRequest => ok := HandleContinuationWrite(bytes);
        case HandlingRequest => ok := HandleLateWrite(bytes);
        case WaitingForInitialRead => ok := HandleLateWrite(bytes);
        case WritingResponse => return InvalidState;
      }
      return if ok then Accepted else Malformed;
    }

    method IsRequestAvailable() returns (r: bool)
      ensures r <==> phase == ReadingRequest && bodyOffset == totalBodyBytes
    {
      return phase == ReadingRequest && bodyOffset == totalBodyBytes;
    }

    /** The body of a request that has arrived; `None` when it did not fit the buffer. */
    method GetRequest() returns (r: Option<seq<byte>>)
      requires Valid() && phase == ReadingRequest && bodyOffset == totalBodyBytes
      modifies this`phase
      ensures Valid() && phase == HandlingRequest
      ensures r == if totalBodyBytes <= bodyBytes.Length then Some(received) else None
    {
      phase := HandlingRequest;
      if totalBodyBytes > bodyBytes.Length { return None; }
      return Some(bodyBytes[..totalBodyBytes]);
    }

    method SetResponse(status: byte, body: Option<Body>)
      requires Valid() && phase == HandlingRequest
      modifies this
      ensures Valid() && phase == WaitingForInitialRead
      ensures CurrentWriting() == Writing(old(tid), status, body, false, 0)
    {
      phase := WaitingForInitialRead;
      this.status := status;
      responseBody := body;
      responseOffset := 0;
    }

    predicate MayRead()
      reads this
    {
      phase == WaitingForInitialRead || phase == WritingResponse
    }

    /** Writes the next fragment of the response to a buffer; without a response to read, nothing changes. */
    method HandleRead(bytes: array<byte>) returns (ok: bool, numBytes: nat, isFinal: bool)
      requires Valid()
      requires phase == WritingResponse ==> responseBody.Some?
      requires bytes != bodyBytes
      modifies this, bytes
      ensures !old(MayRead()) ==> unchanged(this) && bytes[..] == old(bytes[..])
      ensures old(MayRead()) ==> phase == WritingResponse
      ensures ok <==> old(MayRead()) && Send(old(CurrentWriting()), bytes.Length).Some?
      ensures ok ==>
                && Valid() && CurrentWriting() == Send(old(CurrentWriting()), bytes.Length).value.1
                && numBytes <= bytes.Length
                && bytes[..numBytes] == Send(old(CurrentWriting()), bytes.Length).value.0
                && (isFinal <==> responseOffset == |BytesOf(responseBody)|)
    {
      if !MayRead() { return false, 0, false; }
      var w := CurrentWriting();
      var total := |BytesOf(responseBody)|;
      var numHeaderBytes := if phase == WritingResponse then 2 else 3 + if total != 0 then 2 else 0;
      phase := WritingResponse;
      if bytes.Length < numHeaderBytes { return false, 0, false; }

      var numFragmentBytes := total - responseOffset;
      if bytes.Length - numHeaderBytes < numFragmentBytes {
        numFragmentBytes := bytes.Length - numHeaderBytes;
      }
      var fragment := BytesOf(responseBody)[responseOffset..responseOffset + numFragmentBytes];
      var p := Pdu(if w.started then ContinuationHeader(Response, tid) else ResponseHeader(tid, status),
                   total, if responseBody.None? then None else Some(fragment));
      assert p == Fragment(w, bytes.Length);
      ok, numBytes := Serialize(p, bytes);
      if !ok { return false, 0, false; }
      responseOffset := responseOffset + numFragmentBytes;
      isFinal := responseOffset == total;
    }
  }

  /**
   A request, its fetching, and an empty continuation of it before the answer. The continuation is meant to
   be accepted, but it is compared with the opcode: it is accepted if and only if its ID happens to be the
   opcode. Where fetching and answering are one call, as in the procedures of the original, no packet
   arrives in between.
   */
  method ContinuationBeforeAnswer(opcode: byte, tid: byte, iid: uint16, buffer: array<byte>) returns (r: WriteResult)
    modifies buffer
    ensures r == if tid == opcode then Accepted else Malformed
  {
    var transaction := new Transaction(buffer);
    var request := Pdu(RequestHeader(opcode, tid, iid), 0, None);
    DecodedOfEncode(request);
    r := transaction.HandleWrite(Encode(request));
    var body := transaction.GetRequest();
    ContinuationDiffers(opcode, tid);
    r := transaction.HandleWrite(Encode(Pdu(ContinuationHeader(Request, tid), 0, None)));
  }

  lemma ContinuationDiffers(opcode: byte, tid: byte)
    ensures (Encode(Pdu(ContinuationHeader(Request, tid), 0, None))
             == Encode(Pdu(ContinuationHeader(Request, opcode), 0, None)))
            <==> tid == opcode
  {
    EncodeParts(Pdu(ContinuationHeader(Request, tid), 0, None));
    EncodeParts(Pdu(ContinuationHeader(Request, opcode), 0, None));
  }
}
