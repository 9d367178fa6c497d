/**
 HAP-BLE PDUs: how they are laid out in bytes, and their serializer and parsers.
 */
module Pdu {
  import opened Bytes
  import opened Options

  datatype Kind = Request | Response

  /** Control field and fixed parameters. */
  datatype Header =
    | RequestHeader(opcode: byte, tid: byte, iid: uint16)
    | ResponseHeader(tid: byte, status: byte)
    | ContinuationHeader(kind: Kind, tid: byte)

  /** `total` is the length of the whole body, `body` the fragment of it in this PDU; `None` is a null body. */
  datatype Pdu = Pdu(header: Header, total: uint16, body: Option<seq<byte>>)

  datatype Error = InvalidData | OutOfResources

  predicate IsFirst(h: Header) {
    !h.ContinuationHeader?
  }

  function KindOf(h: Header): Kind {
    match h
    case RequestHeader(_, _, _) => Request
    case ResponseHeader(_, _) => Response
    case ContinuationHeader(kind, _) => kind
  }

  function BodyOf(p: Pdu): seq<byte> {
    if p.body.None? then [] else p.body.value
  }

  // ---- Layout ----

  /** Bit 7 marks a continuation, bits 1 to 3 hold the kind, bits 4 to 6 are reserved, bit 0 is the length. */
  function ControlField(h: Header): byte {
    (if IsFirst(h) then 0 else 0x80) + (if KindOf(h) == Request then 0 else 2)
  }

  function FixedParams(h: Header): seq<byte> {
    match h
    case RequestHeader(opcode, tid, iid) => [opcode, tid] + Little16(iid)
    case ResponseHeader(tid, status) => [tid, status]
    case ContinuationHeader(_, tid) => [tid]
  }

  /** The bytes of a PDU. Only a first fragment tells the length of the body. */
  function Encode(p: Pdu): seq<byte> {
    [ControlField(p.header)] + FixedParams(p.header) +
    (if IsFirst(p.header) && p.body.Some? then Little16(p.total) else []) + BodyOf(p)
  }

  /** Where the body length, or a continuation's body, starts. */
  function HeaderLength(h: Header): nat {
    1 + |FixedParams(h)|
  }

  /** A PDU that the parser of first fragments yields: a null body has length zero. */
  predicate ProperFirst(p: Pdu) {
    IsFirst(p.header) && |BodyOf(p)| <= p.total && (p.body.None? ==> p.total == 0)
  }

  /** A PDU that the parser of continuations yields: an empty fragment is a null body, and the rest has room for it. */
  predicate ProperContinuation(p: Pdu, kind: Kind, total: uint16, soFar: nat) {
    && p.header.ContinuationHeader? && p.header.kind == kind && p.total == total
    && soFar + |BodyOf(p)| <= total
    && (p.body.Some? ==> p.body.value != [])
  }

  lemma ControlFieldInjective(h: Header, g: Header)
    requires ControlField(h) == ControlField(g)
    ensures IsFirst(h) == IsFirst(g) && KindOf(h) == KindOf(g)
    ensures |FixedParams(h)| == |FixedParams(g)|
  {
  }

  lemma FixedParamsInjective(h: Header, g: Header)
    requires ControlField(h) == ControlField(g) && FixedParams(h) == FixedParams(g)
    ensures h == g
  {
    ControlFieldInjective(h, g);
    if h.RequestHeader? {
      assert FixedParams(h)[2..] == Little16(h.iid) && FixedParams(g)[2..] == Little16(g.iid);
    }
  }

  /** The parts of an encoding, at their places. */
  lemma EncodeParts(p: Pdu)
    ensures var b := Encode(p);
            var n := HeaderLength(p.header);
            && |b| >= n && b[0] == ControlField(p.header) && b[1..n] == FixedParams(p.header)
            && (if IsFirst(p.header) && p.body.Some?
                then |b| >= n + 2 && b[n..n + 2] == Little16(p.total) && b[n + 2..] == BodyOf(p)
                else b[n..] == BodyOf(p))
  {
    var c, f := [ControlField(p.header)], FixedParams(p.header);
    var l := if IsFirst(p.header) && p.body.Some? then Little16(p.total) else [];
    MiddleOf(c, f, l + BodyOf(p));
    Associative(c + f, l, BodyOf(p));
    MiddleOf(c + f, l, BodyOf(p));
  }

  /**
   The bytes of each kind of PDU: control field, fixed parameters in this order, body length and body, with
   numbers lowest byte first.
   */
  lemma EncodedBytes(opcode: byte, tid: byte, iid: uint16, status: byte, total: uint16, body: seq<byte>)
    ensures Encode(Pdu(RequestHeader(opcode, tid, iid), total, Some(body))) ==
            [0x00, opcode, tid, iid % 0x100, iid / 0x100, total % 0x100, total / 0x100] + body
    ensures Encode(Pdu(ResponseHeader(tid, status), total, Some(body))) ==
            [0x02, tid, status, total % 0x100, total / 0x100] + body
    ensures Encode(Pdu(ContinuationHeader(Request, tid), total, Some(body))) == [0x80, tid] + body
    ensures Encode(Pdu(ContinuationHeader(Response, tid), total, Some(body))) == [0x82, tid] + body
  {
    var request := Pdu(RequestHeader(opcode, tid, iid), total, Some(body));
    EncodeParts(request);
    assert Encode(request) == Encode(request)[..1] + Encode(request)[1..5] + Encode(request)[5..7] + body;
    assert FixedParams(request.header) == [opcode, tid, iid % 0x100, iid / 0x100];
  }

  /** Without a body there is no length either. */
  lemma EncodedBytesWithoutBody(opcode: byte, tid: byte, iid: uint16, status: byte, total: uint16)
    ensures Encode(Pdu(RequestHeader(opcode, tid, iid), total, None)) ==
            [0x00, opcode, tid, iid % 0x100, iid / 0x100]
    ensures Encode(Pdu(ResponseHeader(tid, status), total, None)) == [0x02, tid, status]
    ensures Encode(Pdu(ContinuationHeader(Request, tid), total, None)) == [0x80, tid]
    ensures Encode(Pdu(ContinuationHeader(Response, tid), total, None)) == [0x82, tid]
  {
    var fixed := FixedParams(RequestHeader(opcode, tid, iid));
    assert fixed == [opcode, tid, iid % 0x100, iid / 0x100];
    assert [0x00] + fixed == [0x00, opcode, tid, iid % 0x100, iid / 0x100];
  }

  /** Different first fragments have different bytes. */
  lemma EncodeFirstInjective(p: Pdu, q: Pdu)
    requires ProperFirst(p) && ProperFirst(q) && Encode(p) == Encode(q)
    ensures p == q
  {
    EncodeParts(p);
    EncodeParts(q);
    ControlFieldInjective(p.header, q.header);
    FixedParamsInjective(p.header, q.header);
  }

  lemma EncodeContinuationInjective(p: Pdu, q: Pdu, kind: Kind, total: uint16, soFar: nat)
    requires ProperContinuation(p, kind, total, soFar) && ProperContinuation(q, kind, total, soFar)
    requires Encode(p) == Encode(q)
    ensures p == q
  {
    EncodeParts(p);
    EncodeParts(q);
    FixedParamsInjective(p.header, q.header);
  }

  // ---- What the parsers compute ----

  /** The first fragment that has these bytes. */
  ghost function Decoded(bytes: seq<byte>): (r: Option<Pdu>)
    ensures r.Some? ==> ProperFirst(r.value) && Encode(r.value) == bytes
    ensures r.None? ==> forall p :: ProperFirst(p) ==> Encode(p) != bytes
  {
    if exists p :: ProperFirst(p) && Encode(p) == bytes then
      var p :| ProperFirst(p) && Encode(p) == bytes;
      Some(p)
    else None
  }

  /** The continuation that has these bytes. */
  ghost function DecodedContinuation(bytes: seq<byte>, kind: Kind, total: uint16, soFar: nat): (r: Option<Pdu>)
    ensures r.Some? ==> ProperContinuation(r.value, kind, total, soFar) && Encode(r.value) == bytes
    ensures r.None? ==> forall p :: ProperContinuation(p, kind, total, soFar) ==> Encode(p) != bytes
  {
    if exists p :: ProperContinuation(p, kind, total, soFar) && Encode(p) == bytes then
      var p :| ProperContinuation(p, kind, total, soFar) && Encode(p) == bytes;
      Some(p)
    else None
  }

  /** Parsing what was serialized gives back the PDU. */
  lemma DecodedOfEncode(p: Pdu)
    requires ProperFirst(p)
    ensures Decoded(Encode(p)) == Some(p)
  {
    var r := Decoded(Encode(p));
    assert r.Some?;
    EncodeFirstInjective(r.value, p);
  }

  lemma DecodedContinuationOfEncode(p: Pdu, kind: Kind, total: uint16, soFar: nat)
    requires ProperContinuation(p, kind, total, soFar)
    ensures DecodedContinuation(Encode(p), kind, total, soFar) == Some(p)
  {
    var r := DecodedContinuation(Encode(p), kind, total, soFar);
    assert r.Some?;
    EncodeContinuationInjective(r.value, p, kind, total, soFar);
  }

  /**
   A first fragment that can be serialized is given back by the parser exactly when it does not claim
   a body length without a body.
   */
  lemma RoundTripExactlyWhenProper(p: Pdu)
    requires IsFirst(p.header) && |BodyOf(p)| <= p.total
    ensures Decoded(Encode(p)) == Some(p) <==> (p.body.None? ==> p.total == 0)
  {
    if p.body.None? ==> p.total == 0 {
      DecodedOfEncode(p);
    }
  }

  // ---- Parsers ----

  method DeserializeControlField(controlField: byte) returns (r: Option<(bool, Kind)>)
    ensures r.Some? ==> controlField == (if r.value.0 then 0x80 else 0) + (if r.value.1 == Request then 0 else 2)
    ensures r.None? ==> forall h :: ControlField(h) != controlField
  {
    // Reserved bits.
    if controlField / 16 % 8 != 0 { return None; }
    var isContinuation := controlField / 128 == 1;
    // Length.
    if controlField % 2 != 0 { return None; }
    // Kind.
    match controlField / 2 % 8
    case 0 => return Some((isContinuation, Request));
    case 1 => return Some((isContinuation, Response));
    case _ => return None;
  }

  method DeserializeFixedParams(bytes: seq<byte>, kind: Kind) returns (r: Option<Header>)
    requires |bytes| >= 1
    ensures r.Some? ==> IsFirst(r.value) && KindOf(r.value) == kind &&
                        HeaderLength(r.value) <= |bytes| &&
                        FixedParams(r.value) == bytes[1..HeaderLength(r.value)]
    ensures r.None? ==> forall h :: IsFirst(h) && KindOf(h) == kind ==> |bytes| < HeaderLength(h)
  {
    match kind
    case Request =>
      if |bytes| - 1 < 4 { return None; }
      var iid := ReadLittle16(bytes[3..]);
      Little16OfRead(bytes[3..5]);
      return Some(RequestHeader(bytes[1], bytes[2], iid));
    case Response =>
      if |bytes| - 1 < 2 { return None; }
      return Some(ResponseHeader(bytes[1], bytes[2]));
  }

  lemma NullBodyEncodes(header: Header, bytes: seq<byte>)
    requires IsFirst(header) && bytes == [ControlField(header)] + FixedParams(header)
    ensures Encode(Pdu(header, 0, None)) == bytes
  {
  }

  lemma BodyEncodes(header: Header, total: uint16, body: seq<byte>, bytes: seq<byte>)
    requires IsFirst(header) && |bytes| >= HeaderLength(header) + 2
    requires bytes[..HeaderLength(header)] == [ControlField(header)] + FixedParams(header)
    requires bytes[HeaderLength(header)..HeaderLength(header) + 2] == Little16(total)
    requires bytes[HeaderLength(header) + 2..] == body
    ensures Encode(Pdu(header, total, Some(body))) == bytes
  {
    var n := HeaderLength(header);
    assert bytes == bytes[..n] + bytes[n..n + 2] + bytes[n + 2..];
  }

  /** No proper first fragment ends within the length of its body, or goes on after its body. */
  lemma NoBodyFits(header: Header, bytes: seq<byte>, p: Pdu)
    requires IsFirst(header) && |bytes| > HeaderLength(header)
    requires var rest := bytes[HeaderLength(header)..]; |rest| < 2 || |rest| - 2 > ReadLittle16(rest)
    requires ProperFirst(p) && p.header == header
    ensures Encode(p) != bytes
  {
    EncodeParts(p);
  }

  /** Parses the body of a first fragment, from where its length may start. */
  method DeserializeBody(header: Header, bytes: seq<byte>) returns (r: Option<Pdu>)
    requires IsFirst(header) && HeaderLength(header) <= |bytes|
    requires bytes[..HeaderLength(header)] == [ControlField(header)] + FixedParams(header)
    ensures r.Some? ==> r.value.header == header && ProperFirst(r.value) && Encode(r.value) == bytes
    ensures r.None? ==> forall p :: ProperFirst(p) && p.header == header ==> Encode(p) != bytes
  {
    var b := HeaderLength(header);
    var remainingBytes := |bytes| - b;
    if remainingBytes == 0 {
      assert bytes[..b] == bytes;
      NullBodyEncodes(header, bytes);
      return Some(Pdu(header, 0, None));
    }
    if remainingBytes < 2 {
      forall p | ProperFirst(p) && p.header == header
        ensures Encode(p) != bytes
      {
        NoBodyFits(header, bytes, p);
      }
      return None;
    }
    var total := ReadLittle16(bytes[b..]);
    Little16OfRead(bytes[b..b + 2]);
    b := b + 2;
    remainingBytes := remainingBytes - 2;
    var numBytes := if remainingBytes < total then remainingBytes else total;
    var body := bytes[b..b + numBytes];
    remainingBytes := remainingBytes - numBytes;
    if remainingBytes != 0 {
      forall p | ProperFirst(p) && p.header == header
        ensures Encode(p) != bytes
      {
        NoBodyFits(header, bytes, p);
      }
      return None;
    }
    BodyEncodes(header, total, body, bytes);
    return Some(Pdu(header, total, Some(body)));
  }

  /** Parses a first fragment: it accepts exactly the encodings of proper first fragments. */
  method Deserialize(bytes: seq<byte>) returns (r: Option<Pdu>)
    ensures r == Decoded(bytes)
  {
    if |bytes| < 1 { return None; }
    var control := DeserializeControlField(bytes[0]);
    if control.None? || control.value.0 {
      forall p | ProperFirst(p)
        ensures Encode(p) != bytes
      {
        assert Encode(p)[0] == ControlField(p.header);
      }
      return None;
    }
    var header := DeserializeFixedParams(bytes, control.value.1);
    if header.None? {
      forall p | ProperFirst(p)
        ensures Encode(p) != bytes
      {
        EncodeParts(p);
      }
      return None;
    }
    assert bytes[..HeaderLength(header.value)] == [bytes[0]] + bytes[1..HeaderLength(header.value)];
    r := DeserializeBody(header.value, bytes);
    if r.Some? {
      EncodeFirstInjective(r.value, Decoded(bytes).value);
    } else {
      forall p | ProperFirst(p)
        ensures Encode(p) != bytes
      {
        EncodeParts(p);
        if Encode(p) == bytes {
          ControlFieldInjective(p.header, header.value);
          FixedParamsInjective(p.header, header.value);
        }
      }
    }
  }

  /** Parses a continuation, given the length of the whole body and how much of it has been received. */
  method DeserializeContinuation(bytes: seq<byte>, kind: Kind, total: uint16, soFar: nat) returns (r: Option<Pdu>)
    requires soFar <= total
    ensures r == DecodedContinuation(bytes, kind, total, soFar)
  {
    if |bytes| < 1 { return None; }
    var control := DeserializeControlField(bytes[0]);
    if control.None? || !control.value.0 || control.value.1 != kind || |bytes| < 2 {
      forall p | ProperContinuation(p, kind, total, soFar)
        ensures Encode(p) != bytes
      {
        EncodeParts(p);
      }
      return None;
    }
    var header := ContinuationHeader(kind, bytes[1]);
    var remainingBytes := |bytes| - 2;
    if remainingBytes > total - soFar {
      forall p | ProperContinuation(p, kind, total, soFar)
        ensures Encode(p) != bytes
      {
        EncodeParts(p);
      }
      return None;
    }
    var p := Pdu(header, total, if remainingBytes == 0 then None else Some(bytes[2..]));
    assert bytes == [bytes[0]] + [bytes[1]] + [] + bytes[2..];
    assert Encode(p) == bytes;
    EncodeContinuationInjective(p, DecodedContinuation(bytes, kind, total, soFar).value, kind, total, soFar);
    return Some(p);
  }

  // ---- Serializer ----

  /**
   Writes a PDU. It fails exactly when the buffer is too small for the encoding. The claim about the
   body is the source's precondition.
   */
  method Serialize(p: Pdu, bytes: array<byte>) returns (ok: bool, numBytes: nat)
    requires |BodyOf(p)| <= p.total
    modifies bytes
    ensures ok <==> |Encode(p)| <= bytes.Length
    ensures ok ==> numBytes == |Encode(p)| && bytes[..numBytes] == Encode(p)
  {
    numBytes := 0;
    if bytes.Length < 1 { return false, 0; }
    var b := Put(bytes, 0, [ControlField(p.header)]);
    var fixed := FixedParams(p.header);
    if bytes.Length - b < |fixed| { return false, 0; }
    b := Put(bytes, b, fixed);
    if IsFirst(p.header) {
      if p.body.Some? {
        if bytes.Length - b < 2 { return false, 0; }
        b := Put(bytes, b, Little16(p.total));
        if bytes.Length - b < |p.body.value| { return false, 0; }
        b := Put(bytes, b, p.body.value);
      }
    } else {
      if bytes.Length - b < |BodyOf(p)| { return false, 0; }
      if BodyOf(p) != [] {
        b := Put(bytes, b, BodyOf(p));
      }
    }
    return true, b;
  }
}
