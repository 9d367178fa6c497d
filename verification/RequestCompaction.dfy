/**
 Parsing of a characteristic write request. The request lies in a buffer as TLV regions, each with a
 NUL byte after it; the value and the authorization data are moved inside the buffer to leave as much
 room as possible after the value.
 */
module RequestCompaction {
  import opened Bytes
  import opened Options

  /** Bytes of a buffer, not counting the NUL byte that follows them. */
  datatype Region = Region(start: nat, length: nat) {

    function End(): nat {
      start + length + 1
    }

    predicate Within(size: nat) {
      End() <= size
    }
  }

  predicate Disjoint(a: Region, b: Region) {
    a.End() <= b.start || b.End() <= a.start
  }

  function Content(b: seq<byte>, r: Region): seq<byte>
    requires r.Within(|b|)
  {
    b[r.start..r.start + r.length]
  }

  predicate Terminated(b: seq<byte>, r: Region)
    requires r.Within(|b|)
  {
    b[r.start + r.length] == 0
  }

  /** The regions that the TLV reader found. */
  datatype Tlvs = Tlvs(
    value: Option<Region>, authData: Option<Region>, origin: Option<Region>, ttl: Option<Region>,
    returnResponse: Option<Region>)

  predicate IsPlaced(b: seq<byte>, r: Option<Region>) {
    r.Some? ==> r.value.Within(|b|) && Terminated(b, r.value)
  }

  /** What the TLV reader guarantees. */
  predicate Placed(b: seq<byte>, t: Tlvs) {
    && IsPlaced(b, t.value) && IsPlaced(b, t.authData) && IsPlaced(b, t.origin)
    && IsPlaced(b, t.ttl) && IsPlaced(b, t.returnResponse)
    && (t.value.Some? && t.authData.Some? ==> Disjoint(t.value.value, t.authData.value))
  }

  /** A one-byte parameter, if it is there. */
  predicate IsByte(b: seq<byte>, r: Option<Region>, allowed: set<byte>)
    requires IsPlaced(b, r)
  {
    r.Some? ==> r.value.length == 1 && b[r.value.start] in allowed
  }

  /** Whether a request is well-formed. */
  predicate WellFormed(b: seq<byte>, t: Tlvs, supportsAuth: bool)
    requires Placed(b, t)
  {
    && t.value.Some?
    && IsByte(b, t.origin, {0, 1})
    && (supportsAuth && t.authData.Some? ==> t.origin.Some?)
    && (t.ttl.Some? ==> t.ttl.value.length == 1)
    && IsByte(b, t.returnResponse, {1})
  }

  /** The parsed request; `room` is the capacity of the value, free memory after it included. */
  datatype Parsed = Parsed(
    value: Region, room: nat, remote: bool, authData: Option<Region>, ttl: byte, hasReturnResponse: bool)

  /** A region of the buffer holds what another one held before, and its NUL byte. */
  ghost predicate Preserved(before: seq<byte>, was: Region, after: seq<byte>, now: Region) {
    && was.Within(|before|) && now.Within(|after|)
    && Content(after, now) == Content(before, was) && Terminated(after, now)
  }

  /** Both regions as they were, the authorization data clear of the value and of all the room after it. */
  ghost predicate BothPreserved(before: seq<byte>, t: Tlvs, after: seq<byte>, value: Region, room: nat, auth: Region)
    requires t.value.Some? && t.authData.Some?
  {
    && Preserved(before, t.value.value, after, value)
    && Preserved(before, t.authData.value, after, auth)
    && value.length < room == |after| - (t.authData.value.length + 1) && value.start + room <= |after|
    && (auth.End() <= value.start || value.start + room <= auth.start)
  }

  /** A move of a region, and what it does to a region that it does not overwrite. */
  lemma MovedRegion(b: seq<byte>, r: Region, to: nat, other: Region)
    requires r.Within(|b|) && to + r.length + 1 <= |b| && other.Within(|b|)
    ensures var a := Moved(b, to, r.start, r.length + 1);
            && Content(a, Region(to, r.length)) == Content(b, r)
            && (Terminated(b, r) ==> Terminated(a, Region(to, r.length)))
            && (Disjoint(Region(to, r.length), other) ==>
                  Content(a, other) == Content(b, other) && (Terminated(b, other) <==> Terminated(a, other)))
  {
    var a := Moved(b, to, r.start, r.length + 1);
    MovedContent(b, a, r, Region(to, r.length));
    if Disjoint(Region(to, r.length), other) {
      MovedContent(b, a, other, other);
    }
  }

  /** Two regions of equal length hold the same when their bytes are the same one by one. */
  lemma MovedContent(b: seq<byte>, a: seq<byte>, r: Region, now: Region)
    requires r.Within(|b|) && now.Within(|a|) && now.length == r.length
    requires forall k :: now.start <= k <= now.start + r.length ==> a[k] == b[k - now.start + r.start]
    ensures Content(a, now) == Content(b, r) && (Terminated(b, r) <==> Terminated(a, now))
  {
    forall i | 0 <= i < r.length
      ensures Content(a, now)[i] == Content(b, r)[i]
    {
      assert a[now.start + i] == b[r.start + i];
    }
  }

  /** Moves of two regions one after the other, none of which overwrites what is still needed. */
  lemma TwoMoves(b: seq<byte>, a: Region, authStart: nat, v: Region, valueStart: nat)
    requires a.Within(|b|) && v.Within(|b|) && Terminated(b, a) && Terminated(b, v)
    requires authStart + a.length + 1 <= |b| && valueStart + v.length + 1 <= |b|
    requires Disjoint(Region(authStart, a.length), v)
    requires Disjoint(Region(valueStart, v.length), Region(authStart, a.length))
    ensures var moved := Moved(Moved(b, authStart, a.start, a.length + 1), valueStart, v.start, v.length + 1);
            && Preserved(b, a, moved, Region(authStart, a.length))
            && Preserved(b, v, moved, Region(valueStart, v.length))
  {
    MovedRegion(b, a, authStart, v);
    MovedRegion(Moved(b, authStart, a.start, a.length + 1), v, valueStart, Region(authStart, a.length));
  }

  method MoveBoth(bytes: array<byte>, a: Region, authStart: nat, v: Region, valueStart: nat)
    requires a.Within(bytes.Length) && v.Within(bytes.Length) && Terminated(bytes[..], a) && Terminated(bytes[..], v)
    requires authStart + a.length + 1 <= bytes.Length && valueStart + v.length + 1 <= bytes.Length
    requires Disjoint(Region(authStart, a.length), v)
    requires Disjoint(Region(valueStart, v.length), Region(authStart, a.length))
    modifies bytes
    ensures Preserved(old(bytes[..]), a, bytes[..], Region(authStart, a.length))
    ensures Preserved(old(bytes[..]), v, bytes[..], Region(valueStart, v.length))
  {
    ghost var before := bytes[..];
    TwoMoves(before, a, authStart, v, valueStart);
    CopyBytes(bytes, authStart, a.start, a.length + 1);
    ghost var between := bytes[..];
    assert between == Moved(before, authStart, a.start, a.length + 1);
    CopyBytes(bytes, valueStart, v.start, v.length + 1);
    assert bytes[..] == Moved(between, valueStart, v.start, v.length + 1);
  }

  /**
   Moves authorization data that lies before the value to the start and the value behind it, or
   authorization data that lies after the value to the end and the value to the start.
   */
  method CompactBoth(bytes: array<byte>, t: Tlvs) returns (value: Region, room: nat, auth: Region)
    requires Placed(bytes[..], t) && t.value.Some? && t.authData.Some?
    modifies bytes
    ensures BothPreserved(old(bytes[..]), t, bytes[..], value, room, auth)
  {
    var v, a := t.value.value, t.authData.value;
    var authStart, valueStart;
    if a.start < v.start {
      authStart, valueStart := 0, a.length + 1;
    } else {
      authStart, valueStart := bytes.Length - (a.length + 1), 0;
    }
    auth := Region(authStart, a.length);
    value := Region(valueStart, v.length);
    room := bytes.Length - (a.length + 1);

    MoveBoth(bytes, a, authStart, v, valueStart);
  }

  /** Moves a value without authorization data to the start. */
  method CompactValue(bytes: array<byte>, v: Region) returns (value: Region, room: nat)
    requires v.Within(bytes.Length) && Terminated(bytes[..], v)
    modifies bytes
    ensures Preserved(old(bytes[..]), v, bytes[..], value)
    ensures value.start == 0 && value.length < room == bytes.Length
  {
    MovedRegion(bytes[..], v, 0, v);
    CopyBytes(bytes, 0, v.start, v.length + 1);
    return Region(0, v.length), bytes.Length;
  }

  /** The parameters of a request beside the value. */
  datatype Parameters = Parameters(remote: bool, authData: Option<Region>, ttl: byte, hasReturnResponse: bool)

  /** What the parameters of a well-formed request say. */
  function ParametersOf(b: seq<byte>, t: Tlvs, supportsAuth: bool): Parameters
    requires Placed(b, t) && WellFormed(b, t, supportsAuth)
  {
    Parameters(t.origin.Some? && b[t.origin.value.start] == 1,
               if supportsAuth then t.authData else None,
               if t.ttl.Some? then b[t.ttl.value.start] else 0,
               t.returnResponse.Some?)
  }

  /** Reads the parameters; `None` when one of them is malformed. */
  method ParseParameters(bytes: array<byte>, t: Tlvs, supportsAuth: bool) returns (r: Option<Parameters>)
    requires Placed(bytes[..], t) && t.value.Some?
    ensures r == if WellFormed(bytes[..], t, supportsAuth) then Some(ParametersOf(bytes[..], t, supportsAuth)) else None
  {
    var remote := false;
    if t.origin.Some? {
      if t.origin.value.length != 1 { return None; }
      match bytes[t.origin.value.start] {
        case 0 => remote := false;
        case 1 => remote := true;
        case _ => return None;
      }
    }

    var authData := None;
    if supportsAuth && t.authData.Some? {
      if t.origin.None? { return None; }
      authData := t.authData;
    }

    var ttl: byte := 0;
    if t.ttl.Some? {
      if t.ttl.value.length != 1 { return None; }
      ttl := bytes[t.ttl.value.start];
    }

    var hasReturnResponse := false;
    if t.returnResponse.Some? {
      if t.returnResponse.value.length != 1 { return None; }
      if bytes[t.returnResponse.value.start] != 1 { return None; }
      hasReturnResponse := true;
    }
    return Some(Parameters(remote, authData, ttl, hasReturnResponse));
  }

  /** Parses a request; `None` when it is malformed, in which case the buffer is untouched. */
  method ParseRequest(bytes: array<byte>, t: Tlvs, supportsAuth: bool) returns (r: Option<Parsed>)
    requires Placed(bytes[..], t)
    modifies bytes
    ensures r.Some? <==>
              && t.value.Some?
              && (t.origin.Some? ==> t.origin.value.length == 1 && old(bytes[t.origin.value.start]) <= 1)
              && (t.origin.None? ==> !supportsAuth || t.authData.None?)
              && (t.ttl.Some? ==> t.ttl.value.length == 1)
              && (t.returnResponse.Some? ==>
                    t.returnResponse.value.length == 1 && old(bytes[t.returnResponse.value.start]) == 1)
    ensures r.None? ==> bytes[..] == old(bytes[..])
    ensures r.Some? ==>
              && r.value.remote == (t.origin.Some? && old(bytes[..])[t.origin.value.start] == 1)
              && r.value.ttl == (if t.ttl.Some? then old(bytes[..])[t.ttl.value.start] else 0)
              && r.value.hasReturnResponse == t.returnResponse.Some?
              && (r.value.authData.Some? <==> supportsAuth && t.authData.Some?)
    ensures r.Some? ==>
              if r.value.authData.Some?
              then BothPreserved(old(bytes[..]), t, bytes[..], r.value.value, r.value.room, r.value.authData.value)
              else Preserved(old(bytes[..]), t.value.value, bytes[..], r.value.value) &&
                   r.value.value.start == 0 && r.value.value.length < r.value.room == bytes.Length
  {
    if t.value.None? { return None; }
    var p := ParseParameters(bytes, t, supportsAuth);
    if p.None? { return None; }

    if p.value.authData.Some? {
      var value, room, auth := CompactBoth(bytes, t);
      return Some(Parsed(value, room, p.value.remote, Some(auth), p.value.ttl, p.value.hasReturnResponse));
    } else {
      var value, room := CompactValue(bytes, t.value.value);
      return Some(Parsed(value, room, p.value.remote, None, p.value.ttl, p.value.hasReturnResponse));
    }
  }
}
