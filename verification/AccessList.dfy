/**
 The access list: for each right a linked list of the authorization data that grant it. It refines one
 multiset for each right.
 */
module AccessList {
  import opened Bytes
  import opened Options

  const RIGHT_NUM := 2

  /** Authorization data are compared over their full length of 32 bytes. */
  type AuthData = d: seq<byte> | |d| == 32 witness Zeros(32)

  class Node {
    var ad: AuthData
    var next: Node?

    constructor (ad: AuthData, next: Node?)
      ensures this.ad == ad && this.next == next
    {
      this.ad := ad;
      this.next := next;
    }
  }

  /** The authorization data of the nodes of a list. */
  ghost function AdsOf(nodes: seq<Node>): (ads: seq<AuthData>)
    reads nodes
    ensures |ads| == |nodes|
    ensures forall i :: 0 <= i < |nodes| ==> ads[i] == nodes[i].ad
  {
    seq(|nodes|, i requires 0 <= i < |nodes| reads nodes => nodes[i].ad)
  }

  /** The nodes are linked in this order, and the last one ends the list. */
  ghost predicate Linked(head: Node?, nodes: seq<Node>)
    reads nodes
  {
    && head == At(nodes, 0)
    && (forall i :: 0 <= i < |nodes| ==> nodes[i].next == At(nodes, i + 1))
    && (forall i, j :: 0 <= i < j < |nodes| ==> nodes[i] != nodes[j])
  }

  /** A node of a list, or null past its end. */
  ghost function At(nodes: seq<Node>, i: nat): Node? {
    if i < |nodes| then nodes[i] else null
  }

  /** The list without the first occurrence of an element. */
  function RemoveFirst(ads: seq<AuthData>, ad: AuthData): seq<AuthData> {
    if ads == [] then [] else if ads[0] == ad then ads[1..] else [ads[0]] + RemoveFirst(ads[1..], ad)
  }

  lemma {:induction false} RemoveFirstAt(ads: seq<AuthData>, ad: AuthData, k: nat)
    requires k < |ads| && ads[k] == ad && ad !in ads[..k]
    ensures RemoveFirst(ads, ad) == ads[..k] + ads[k + 1..]
  {
    if k > 0 {
      assert ads[..k][0] == ads[0];
      assert ads[1..][..k - 1] == ads[..k][1..];
      RemoveFirstAt(ads[1..], ad, k - 1);
      assert ads[..k] + ads[k + 1..] == [ads[0]] + (ads[1..][..k - 1] + ads[1..][k..]);
    }
  }

  /** Removing takes exactly one occurrence away, if there is one. */
  lemma {:induction false} RemoveFirstTakesOne(ads: seq<AuthData>, ad: AuthData)
    ensures multiset(RemoveFirst(ads, ad)) == multiset(ads) - multiset{ad}
    ensures ad !in ads ==> RemoveFirst(ads, ad) == ads
  {
    if ads != [] {
      assert ads == [ads[0]] + ads[1..];
      RemoveFirstTakesOne(ads[1..], ad);
      if ads[0] != ad {
        assert multiset([ads[0]] + RemoveFirst(ads[1..], ad))
               == multiset{ads[0]} + multiset(RemoveFirst(ads[1..], ad));
      }
    }
  }

  // ---- Operations on the list of a right ----

  datatype Operation = Appending(ad: AuthData) | Deleting(ad: AuthData)

  /** The list after an operation on it. */
  function After(ads: seq<AuthData>, op: Operation): seq<AuthData> {
    match op
    case Appending(ad) => [ad] + ads
    case Deleting(ad) => RemoveFirst(ads, ad)
  }

  function AfterAll(ads: seq<AuthData>, ops: seq<Operation>): seq<AuthData>
    decreases |ops|
  {
    if ops == [] then ads else AfterAll(After(ads, ops[0]), ops[1..])
  }

  lemma {:induction false} AfterAllConcat(ads: seq<AuthData>, ops: seq<Operation>, op: Operation)
    ensures AfterAll(ads, ops + [op]) == After(AfterAll(ads, ops), op)
    decreases |ops|
  {
    if ops == [] {
      assert ([] + [op])[1..] == [];
    } else {
      assert (ops + [op])[1..] == ops[1..] + [op];
      AfterAllConcat(After(ads, ops[0]), ops[1..], op);
    }
  }

  /** A list with an additional entry that comes before all others like it. */
  predicate IsInserted(more: seq<AuthData>, ads: seq<AuthData>, ad: AuthData, k: nat) {
    k <= |ads| && more == ads[..k] + [ad] + ads[k..] && ad !in ads[..k]
  }

  lemma InsertedTail(more: seq<AuthData>, ads: seq<AuthData>, ad: AuthData, k: nat)
    requires IsInserted(more, ads, ad, k) && k > 0
    ensures more[0] == ads[0] != ad && IsInserted(more[1..], ads[1..], ad, k - 1)
  {
    assert ads[..k][0] == ads[0];
    assert ads[1..][..k - 1] == ads[..k][1..];
  }

  lemma InsertedCons(x: AuthData, more: seq<AuthData>, ads: seq<AuthData>, ad: AuthData, k: nat)
    requires IsInserted(more, ads, ad, k) && x != ad
    ensures IsInserted([x] + more, [x] + ads, ad, k + 1)
  {
    assert ([x] + ads)[..k + 1] == [x] + ads[..k];
    assert ([x] + ads)[k + 1..] == ads[k..];
  }

  /** An operation on another entry leaves the additional entry where it is, or one place further. */
  lemma {:induction false} InsertedAfterDelete(more: seq<AuthData>, ads: seq<AuthData>, ad: AuthData, k: nat, x: AuthData)
    returns (k': nat)
    requires IsInserted(more, ads, ad, k) && x != ad
    ensures IsInserted(RemoveFirst(more, x), RemoveFirst(ads, x), ad, k')
    decreases k
  {
    if k == 0 {
      assert more[0] == ad && more[1..] == ads;
      k' := 0;
    } else {
      InsertedTail(more, ads, ad, k);
      if ads[0] == x {
        k' := k - 1;
      } else {
        var j := InsertedAfterDelete(more[1..], ads[1..], ad, k - 1, x);
        InsertedCons(ads[0], RemoveFirst(more[1..], x), RemoveFirst(ads[1..], x), ad, j);
        k' := j + 1;
      }
    }
  }

  lemma InsertedAfter(more: seq<AuthData>, ads: seq<AuthData>, ad: AuthData, k: nat, op: Operation) returns (k': nat)
    requires IsInserted(more, ads, ad, k) && op.ad != ad
    ensures IsInserted(After(more, op), After(ads, op), ad, k')
  {
    match op
    case Appending(x) =>
      InsertedCons(x, more, ads, ad, k);
      k' := k + 1;
    case Deleting(x) => k' := InsertedAfterDelete(more, ads, ad, k, x);
  }

  lemma {:induction false} InsertedAfterAll(
    more: seq<AuthData>, ads: seq<AuthData>, ad: AuthData, k: nat, ops: seq<Operation>) returns (k': nat)
    requires IsInserted(more, ads, ad, k)
    requires forall op :: op in ops ==> op.ad != ad
    ensures IsInserted(AfterAll(more, ops), AfterAll(ads, ops), ad, k')
    decreases |ops|
  {
    if ops == [] {
      k' := k;
    } else {
      assert ops[0] in ops;
      var j := InsertedAfter(more, ads, ad, k, ops[0]);
      k' := InsertedAfterAll(After(more, ops[0]), After(ads, ops[0]), ad, j, ops[1..]);
    }
  }

  /**
   Deleting an entry undoes an append of it: whatever is done with other entries in between, the list is
   as if the entry had never been appended.
   */
  lemma DeleteUndoesAppend(ads: seq<AuthData>, ad: AuthData, ops: seq<Operation>)
    requires forall op :: op in ops ==> op.ad != ad
    ensures AfterAll(ads, [Appending(ad)] + ops + [Deleting(ad)]) == AfterAll(ads, ops)
  {
    var more := [ad] + ads;
    var k := InsertedAfterAll(more, ads, ad, 0, ops);
    DeleteInserted(AfterAll(more, ops), AfterAll(ads, ops), ad, k);
    AfterAllConcat(more, ops, Deleting(ad));
    var rest := ops + [Deleting(ad)];
    assert [Appending(ad)] + ops + [Deleting(ad)] == [Appending(ad)] + rest;
    assert ([Appending(ad)] + rest)[1..] == rest;
  }

  lemma DeleteInserted(more: seq<AuthData>, ads: seq<AuthData>, ad: AuthData, k: nat)
    requires IsInserted(more, ads, ad, k)
    ensures RemoveFirst(more, ad) == ads
  {
    assert more[..k] == ads[..k] && more[k + 1..] == ads[k..];
    RemoveFirstAt(more, ad, k);
  }

  // ---- One list ----

  lemma LinkedTail(nodes: seq<Node>)
    requires nodes != [] && Linked(nodes[0], nodes)
    ensures Linked(nodes[0].next, nodes[1..])
  {
  }

  method PushFront(head: Node?, ghost nodes: seq<Node>, ad: AuthData) returns (p: Node)
    requires Linked(head, nodes)
    ensures fresh(p) && Linked(p, [p] + nodes)
    ensures AdsOf([p] + nodes) == [ad] + old(AdsOf(nodes))
  {
    p := new Node(ad, head);
    assert forall i :: 0 < i <= |nodes| ==> ([p] + nodes)[i] == nodes[i - 1];
  }

  /** Whether a list contains an entry. */
  method Contains(head: Node?, ghost nodes: seq<Node>, ad: AuthData) returns (found: bool)
    requires Linked(head, nodes)
    ensures found <==> ad in AdsOf(nodes)
  {
    ghost var k := 0;
    var p := head;
    while p != null
      invariant k <= |nodes| && (p == null <==> k == |nodes|) && (k < |nodes| ==> p == nodes[k])
      invariant ad !in AdsOf(nodes)[..k]
      decreases |nodes| - k
    {
      assert AdsOf(nodes)[k] == p.ad;
      if p.ad == ad { return true; }
      p := p.next;
      k := k + 1;
    }
    assert AdsOf(nodes)[..k] == AdsOf(nodes);
    return false;
  }

  function Without(nodes: seq<Node>, k: nat): (r: seq<Node>)
    requires k < |nodes|
    ensures |r| == |nodes| - 1
    ensures forall i :: 0 <= i < |r| ==> r[i] == nodes[if i < k then i else i + 1]
  {
    nodes[..k] + nodes[k + 1..]
  }

  /** Takes a node that is not the first out of its list. */
  method Unlink(head: Node?, ghost nodes: seq<Node>, p1: Node, p2: Node, ghost k: nat)
    requires Linked(head, nodes) && 0 < k < |nodes| && p1 == nodes[k - 1] && p2 == nodes[k]
    modifies p1
    ensures Linked(head, Without(nodes, k))
    ensures AdsOf(nodes) == old(AdsOf(nodes))
  {
    p1.next := p2.next;
  }

  /** Takes a node out of its list and leaves another list alone. */
  method Bypass(
    head: Node?, ghost nodes: seq<Node>, p1: Node, p2: Node, ghost k: nat, ghost otherHead: Node?,
    ghost others: seq<Node>)
    requires Linked(head, nodes) && 0 < k < |nodes| && p1 == nodes[k - 1] && p2 == nodes[k]
    requires Linked(otherHead, others) && p1 !in others
    modifies p1
    ensures Linked(head, Without(nodes, k)) && AdsOf(nodes) == old(AdsOf(nodes))
    ensures Linked(otherHead, others) && AdsOf(others) == old(AdsOf(others))
  {
    Unlink(head, nodes, p1, p2, k);
    assert forall i :: 0 <= i < |others| ==> unchanged(others[i]);
  }

  lemma AdsWithout(nodes: seq<Node>, k: nat)
    requires k < |nodes|
    ensures AdsOf(Without(nodes, k)) == AdsOf(nodes)[..k] + AdsOf(nodes)[k + 1..]
  {
  }

  /** Deletes the first occurrence of an entry from a list that is not empty, and leaves another list alone. */
  method DeleteFrom(head: Node, ghost nodes: seq<Node>, ad: AuthData, ghost otherHead: Node?, ghost others: seq<Node>)
    returns (newHead: Node?, found: bool, ghost left: seq<Node>)
    requires Linked(head, nodes) && Linked(otherHead, others)
    requires forall i :: 0 <= i < |others| ==> others[i] !in nodes
    modifies nodes
    ensures Linked(otherHead, others) && AdsOf(others) == old(AdsOf(others))
    ensures Linked(newHead, left) && forall n :: n in left ==> n in nodes
    ensures found <==> ad in old(AdsOf(nodes))
    ensures AdsOf(left) == RemoveFirst(old(AdsOf(nodes)), ad)
  {
    ghost var ads := AdsOf(nodes);
    newHead := head;
    if head.ad == ad {
      LinkedTail(nodes);
      assert AdsOf(nodes[1..]) == ads[1..];
      return head.next, true, nodes[1..];
    }
    var p1: Node := head;
    var p2 := head.next;
    ghost var k := 1;
    while p2 != null
      invariant 1 <= k <= |nodes| && p1 == nodes[k - 1]
      invariant (p2 == null <==> k == |nodes|) && (k < |nodes| ==> p2 == nodes[k])
      invariant ad !in ads[..k]
      decreases |nodes| - k
    {
      assert ads[k] == p2.ad;
      if p2.ad == ad {
        RemoveFirstAt(ads, ad, k);
        Bypass(head, nodes, p1, p2, k, otherHead, others);
        AdsWithout(nodes, k);
        return head, true, Without(nodes, k);
      }
      p1 := p2;
      p2 := p2.next;
      k := k + 1;
    }
    assert ads[..k] == ads;
    RemoveFirstTakesOne(ads, ad);
    return head, false, nodes;
  }

  // ---- The lists of all rights ----

  class AccessLists {
    const heads: array<Node?>

    // The nodes of the two lists, in order.
    ghost var first: seq<Node>
    ghost var second: seq<Node>

    ghost function Nodes(right: nat): seq<Node>
      reads this
    {
      if right == 0 then first else second
    }

    /** The right that is not this one. */
    ghost function Other(right: nat): nat {
      if right == 0 then 1 else 0
    }

    ghost predicate Valid()
      reads this, heads, first, second
    {
      && heads.Length == RIGHT_NUM
      && Linked(heads[0], first) && Linked(heads[1], second)
      && (forall n :: n in first ==> n !in second)
    }

    /** The authorization data that grant a right, the latest first. */
    ghost function Contents(right: nat): seq<AuthData>
      reads this, first, second
    {
      AdsOf(Nodes(right))
    }

    constructor ()
      ensures Valid() && fresh(heads)
      ensures Contents(0) == [] && Contents(1) == []
    {
      heads := new Node?[RIGHT_NUM](_ => null);
      first, second := [], [];
    }

    method SetFirst(head: Node?, ghost nodes: seq<Node>)
      requires heads.Length == RIGHT_NUM && Linked(head, nodes) && Linked(heads[1], second)
      requires forall n :: n in nodes ==> n !in second
      modifies this`first, heads
      ensures heads[0] == head && heads[1] == old(heads[1]) && first == nodes
      ensures Linked(head, nodes) && Linked(heads[1], second)
      ensures AdsOf(first) == old(AdsOf(nodes)) && AdsOf(second) == old(AdsOf(second))
    {
      heads[0] := head;
      first := nodes;
    }

    method SetSecond(head: Node?, ghost nodes: seq<Node>)
      requires heads.Length == RIGHT_NUM && Linked(head, nodes) && Linked(heads[0], first)
      requires forall n :: n in nodes ==> n !in first
      modifies this`second, heads
      ensures heads[1] == head && heads[0] == old(heads[0]) && second == nodes
      ensures Linked(head, nodes) && Linked(heads[0], first)
      ensures AdsOf(second) == old(AdsOf(nodes)) && AdsOf(first) == old(AdsOf(first))
    {
      heads[1] := head;
      second := nodes;
    }

    /** Gives a right a new list; nodes outside both lists are not touched. */
    method SetList(right: nat, head: Node?, ghost nodes: seq<Node>)
      requires heads.Length == RIGHT_NUM && right < RIGHT_NUM
      requires Linked(head, nodes) && Linked(heads[Other(right)], Nodes(Other(right)))
      requires forall n :: n in nodes ==> n !in Nodes(Other(right))
      modifies this, heads
      ensures Valid() && Nodes(right) == nodes && Nodes(Other(right)) == old(Nodes(Other(right)))
      ensures Contents(right) == old(AdsOf(nodes)) && Contents(Other(right)) == old(Contents(Other(right)))
    {
      if right == 0 {
        SetFirst(head, nodes);
      } else {
        SetSecond(head, nodes);
      }
    }

    method Prepend(ad: AuthData, right: nat)
      requires Valid() && right < RIGHT_NUM
      modifies this, heads
      ensures Valid()
      ensures |Nodes(right)| > 0 && fresh(Nodes(right)[0]) && Nodes(right)[1..] == old(Nodes(right))
      ensures Contents(right) == [ad] + old(Contents(right))
      ensures Contents(Other(right)) == old(Contents(Other(right)))
    {
      ghost var nodes := Nodes(right);
      var p := PushFront(heads[right], nodes, ad);
      SetList(right, p, [p] + nodes);
    }

    /** Adds an entry at the front; `memory` tells whether a node can be allocated. */
    method Append(ad: Option<AuthData>, right: nat, memory: bool) returns (r: int)
      requires Valid()
      modifies this, heads
      ensures Valid()
      ensures r == if ad.None? || right >= RIGHT_NUM then -2 else if memory then 0 else -1
      ensures r == 0 ==> |Nodes(right)| > 0 && fresh(Nodes(right)[0]) && Nodes(right)[1..] == old(Nodes(right))
      ensures r == 0 ==> Contents(right) == After(old(Contents(right)), Appending(ad.value))
                         && Contents(Other(right)) == old(Contents(Other(right)))
      ensures r != 0 ==> first == old(first) && second == old(second)
                         && Contents(0) == old(Contents(0)) && Contents(1) == old(Contents(1))
    {
      if ad.None? || right >= RIGHT_NUM { return -2; }
      if !memory { return -1; }
      Prepend(ad.value, right);
      return 0;
    }

    /** Whether an entry grants a right: 0 if it does, 1 if it does not. */
    method Check(ad: Option<AuthData>, right: nat) returns (r: int)
      requires Valid()
      ensures r == if ad.None? || right >= RIGHT_NUM then -1
                   else if multiset(Contents(right))[ad.value] > 0 then 0 else 1
    {
      if ad.None? || right >= RIGHT_NUM { return -1; }
      var found := Contains(heads[right], Nodes(right), ad.value);
      return if found then 0 else 1;
    }

    /** Deletes the first occurrence of an entry from the list of a right. */
    method Remove(ad: AuthData, right: nat) returns (found: bool)
      requires Valid() && right < RIGHT_NUM && Nodes(right) != []
      modifies this, heads, Nodes(right)
      ensures Valid() && (forall n :: n in Nodes(right) ==> n in old(Nodes(right)))
      ensures found <==> ad in old(Contents(right))
      ensures Contents(right) == RemoveFirst(old(Contents(right)), ad)
      ensures Contents(Other(right)) == old(Contents(Other(right)))
    {
      ghost var nodes, others := Nodes(right), Nodes(Other(right));
      var newHead;
      ghost var left;
      assert forall i :: 0 <= i < |others| ==> others[i] !in nodes;
      newHead, found, left := DeleteFrom(heads[right], nodes, ad, heads[Other(right)], others);
      SetList(right, newHead, left);
    }

    /**
     Deletes one entry: 0 if it was there. The head of the list is read without a test, so the list
     must not be empty.
     */
    method Delete(ad: Option<AuthData>, right: nat) returns (r: int)
      requires Valid()
      requires ad.Some? && right < RIGHT_NUM ==> Contents(right) != []
      modifies this, heads, Nodes(right)
      ensures Valid()
      ensures r == if ad.None? || right >= RIGHT_NUM then -2
                   else if ad.value in old(Contents(right)) then 0 else -1
      ensures r == 0 ==> Contents(right) == After(old(Contents(right)), Deleting(ad.value))
                         && multiset(Contents(right)) == old(multiset(Contents(right))) - multiset{ad.value}
                         && Contents(Other(right)) == old(Contents(Other(right)))
      ensures r != 0 ==> Contents(right) == old(Contents(right)) && Contents(Other(right)) == old(Contents(Other(right)))
    {
      if ad.None? || right >= RIGHT_NUM { return -2; }
      RemoveFirstTakesOne(Contents(right), ad.value);
      var found := Remove(ad.value, right);
      return if found then 0 else -1;
    }
  }
}
