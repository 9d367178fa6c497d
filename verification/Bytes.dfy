/**
 Bytes, little-endian integers and the overlapping copy that the buffer code relies on.
 */
module Bytes {

  type byte = b: int | 0 <= b < 0x100
  type uint16 = n: int | 0 <= n < 0x1_0000
  type uint32 = n: int | 0 <= n < 0x1_0000_0000

  const UINT8_MAX := 0xFF
  const UINT16_MAX := 0xFFFF
  const UINT32_MAX := 0xFFFF_FFFF

  function ReadLittle16(b: seq<byte>): uint16
    requires |b| >= 2
  {
    (b[0] as int) + 0x100 * (b[1] as int)
  }

  function Little16(n: uint16): (b: seq<byte>)
    ensures |b| == 2
    ensures ReadLittle16(b) == n
  {
    [n % 0x100, n / 0x100]
  }

  /** The other half of the round trip: two bytes are the encoding of the number they encode. */
  lemma Little16OfRead(b: seq<byte>)
    requires |b| == 2
    ensures Little16(ReadLittle16(b)) == b
  {
  }

  /** The number that bytes stand for, of any length, the lowest byte first. */
  function LittleValue(b: seq<byte>): nat {
    if b == [] then 0 else (b[0] as int) + 0x100 * LittleValue(b[1..])
  }

  lemma LittleValueOf16(n: uint16)
    ensures LittleValue(Little16(n)) == n
  {
    var b := Little16(n);
    assert LittleValue(b[1..]) == b[1] by {
      assert b[1..][1..] == [];
    }
  }

  function Zeros(n: nat): (b: seq<byte>)
    ensures |b| == n
    ensures forall i :: 0 <= i < n ==> b[i] == 0
  {
    seq(n, _ => 0)
  }

  /** A buffer after `n` bytes have been copied inside it from `from` to `to`, as if through a temporary. */
  ghost function Moved(b: seq<byte>, to: nat, from: nat, n: nat): (r: seq<byte>)
    requires to + n <= |b| && from + n <= |b|
    ensures |r| == |b|
    ensures forall k :: 0 <= k < |r| ==> r[k] == if to <= k < to + n then b[k - to + from] else b[k]
  {
    seq(|b|, k requires 0 <= k < |b| => if to <= k < to + n then b[k - to + from] else b[k])
  }

  lemma Associative<T>(a: seq<T>, b: seq<T>, c: seq<T>)
    ensures a + (b + c) == a + b + c
  {
  }

  lemma MiddleOf<T>(a: seq<T>, b: seq<T>, c: seq<T>)
    ensures (a + b + c)[|a|..|a| + |b|] == b
    ensures (a + b + c)[|a| + |b|..] == c
  {
  }

  method CopyForward(a: array<byte>, to: nat, from: nat, n: nat)
    requires to < from && from + n <= a.Length
    modifies a
    ensures forall k :: to <= k < to + n ==> a[k] == old(a[k - to + from])
    ensures forall k :: 0 <= k < a.Length && !(to <= k < to + n) ==> a[k] == old(a[k])
  {
    for i := 0 to n
      invariant forall k :: to <= k < to + i ==> a[k] == old(a[k - to + from])
      invariant forall k :: 0 <= k < a.Length && !(to <= k < to + i) ==> a[k] == old(a[k])
    {
      a[to + i] := a[from + i];
    }
  }

  method CopyBackward(a: array<byte>, to: nat, from: nat, n: nat)
    requires from < to && to + n <= a.Length
    modifies a
    ensures forall k :: to <= k < to + n ==> a[k] == old(a[k - to + from])
    ensures forall k :: 0 <= k < a.Length && !(to <= k < to + n) ==> a[k] == old(a[k])
  {
    for i := n downto 0
      invariant forall k :: to + i <= k < to + n ==> a[k] == old(a[k - to + from])
      invariant forall k :: 0 <= k < a.Length && !(to + i <= k < to + n) ==> a[k] == old(a[k])
    {
      a[to + i] := a[from + i];
    }
  }

  /**
   Copies `n` bytes inside one buffer, where the two regions may overlap. The direction of the copy
   depends on which region starts first, so no byte is overwritten before it has been read.
   */
  method CopyBytes(a: array<byte>, to: nat, from: nat, n: nat)
    requires to + n <= a.Length && from + n <= a.Length
    modifies a
    ensures a[..] == Moved(old(a[..]), to, from, n)
  {
    if to < from {
      CopyForward(a, to, from, n);
    } else if to > from {
      CopyBackward(a, to, from, n);
    }
  }

  /** Writes bytes at a position of a buffer and returns the position after them. */
  method Put(a: array<byte>, at: nat, bytes: seq<byte>) returns (next: nat)
    requires at + |bytes| <= a.Length
    modifies a
    ensures next == at + |bytes|
    ensures a[..next] == old(a[..at]) + bytes
    ensures a[next..] == old(a[next..])
  {
    for i := 0 to |bytes|
      invariant forall k :: 0 <= k < a.Length ==> a[k] == if at <= k < at + i then bytes[k - at] else old(a[k])
    {
      a[at + i] := bytes[i];
    }
    next := at + |bytes|;
  }
}
