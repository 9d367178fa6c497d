/**
 Numbering of the services of one type over the primary accessory and the bridged accessories. The
 number of a service and the service of a number are inverse to each other.
 */
module ServiceIndex {
  import opened Bytes
  import opened Options

  type Uuid = seq<byte>

  /** A service; `iid` stands for its address. */
  datatype Service = Service(iid: nat, serviceType: Uuid)

  datatype Accessory = Accessory(aid: nat, services: Option<seq<Service>>)

  datatype Server = Server(primary: Accessory, bridged: Option<seq<Accessory>>)

  type Pair = (Service, Accessory)

  function ServicesOf(acc: Accessory): seq<Service> {
    if acc.services.None? then [] else acc.services.value
  }

  function PairsOf(acc: Accessory): (ps: seq<Pair>)
    ensures |ps| == |ServicesOf(acc)|
    ensures forall i :: 0 <= i < |ps| ==> ps[i] == (ServicesOf(acc)[i], acc)
  {
    seq(|ServicesOf(acc)|, i requires 0 <= i < |ServicesOf(acc)| => (ServicesOf(acc)[i], acc))
  }

  function AllPairs(accs: seq<Accessory>): seq<Pair> {
    if accs == [] then [] else AllPairs(accs[..|accs| - 1]) + PairsOf(accs[|accs| - 1])
  }

  function Accessories(server: Server): seq<Accessory> {
    [server.primary] + if server.bridged.None? then [] else server.bridged.value
  }

  /** Every service with its accessory, in the order in which the server lists them. */
  function Pairs(server: Server): seq<Pair> {
    AllPairs(Accessories(server))
  }

  /** How many services a list of accessories has. */
  function NumServices(accs: seq<Accessory>): nat {
    if accs == [] then 0
    else
      var last := accs[|accs| - 1].services;
      NumServices(accs[..|accs| - 1]) + if last.None? then 0 else |last.value|
  }

  lemma {:induction false} NumPairs(accs: seq<Accessory>)
    ensures |AllPairs(accs)| == NumServices(accs)
  {
    if accs != [] {
      NumPairs(accs[..|accs| - 1]);
    }
  }

  lemma {:induction false} ListedAt(accs: seq<Accessory>, j: nat, i: nat)
    requires j < |accs| && accs[j].services.Some? && i < |accs[j].services.value|
    ensures NumServices(accs[..j]) + i < |AllPairs(accs)|
    ensures AllPairs(accs)[NumServices(accs[..j]) + i] == (accs[j].services.value[i], accs[j])
  {
    var init := accs[..|accs| - 1];
    if j == |init| {
      NumPairs(init);
    } else {
      ListedAt(init, j, i);
      assert init[..j] == accs[..j];
    }
  }

  /**
   The server lists every service of the primary accessory and then of each bridged accessory, in order, and
   nothing else.
   */
  lemma ListedInOrder(server: Server, accs: seq<Accessory>, j: nat, i: nat)
    requires accs == if server.bridged.None? then [server.primary] else [server.primary] + server.bridged.value
    requires j < |accs| && accs[j].services.Some? && i < |accs[j].services.value|
    ensures NumServices(accs[..j]) + i < |Pairs(server)| == NumServices(accs)
    ensures Pairs(server)[NumServices(accs[..j]) + i] == (accs[j].services.value[i], accs[j])
  {
    assert Accessories(server) == accs;
    NumPairs(accs);
    ListedAt(accs, j, i);
  }

  /** The pairs whose service has the type. */
  function Matching(ps: seq<Pair>, serviceType: Uuid): seq<Pair> {
    if ps == [] then []
    else
      var last := ps[|ps| - 1];
      Matching(ps[..|ps| - 1], serviceType) + if last.0.serviceType == serviceType then [last] else []
  }

  /** Where a pair is first listed. */
  function FirstIndex(ps: seq<Pair>, p: Pair): (k: nat)
    ensures k <= |ps|
    ensures p !in ps[..k]
    ensures k < |ps| ==> ps[k] == p
  {
    if ps == [] || ps[0] == p then 0
    else
      assert forall k :: 0 < k <= |ps| ==> ps[..k] == [ps[0]] + ps[1..][..k - 1];
      1 + FirstIndex(ps[1..], p)
  }

  lemma FirstIndexIsUnique(ps: seq<Pair>, p: Pair, k: nat)
    requires k < |ps| && ps[k] == p && p !in ps[..k]
    ensures FirstIndex(ps, p) == k
  {
    var j := FirstIndex(ps, p);
    assert forall i :: 0 <= i < k ==> ps[..k][i] == ps[i];
    assert forall i :: 0 <= i < j ==> ps[..j][i] == ps[i];
  }

  lemma {:induction false} MatchingConcat(a: seq<Pair>, b: seq<Pair>, serviceType: Uuid)
    ensures Matching(a + b, serviceType) == Matching(a, serviceType) + Matching(b, serviceType)
  {
    if b == [] {
      assert a + b == a;
    } else {
      MatchingConcat(a, b[..|b| - 1], serviceType);
      assert (a + b)[..|a + b| - 1] == a + b[..|b| - 1];
    }
  }

  /** The number of a pair: how many of its type are listed before it. */
  function NumberOf(ps: seq<Pair>, p: Pair): nat {
    |Matching(ps[..FirstIndex(ps, p)], p.0.serviceType)|
  }

  lemma MatchingAt(ps: seq<Pair>, k: nat)
    requires k < |ps|
    ensures var t := ps[k].0.serviceType;
            var n := |Matching(ps[..k], t)|;
            n < |Matching(ps, t)| && Matching(ps, t)[n] == ps[k]
  {
    var t := ps[k].0.serviceType;
    assert ps == ps[..k] + ([ps[k]] + ps[k + 1..]);
    MatchingConcat(ps[..k], [ps[k]] + ps[k + 1..], t);
    MatchingConcat([ps[k]], ps[k + 1..], t);
    assert [ps[k]][..0] == [];
  }

  lemma {:induction false} MatchingComesFrom(ps: seq<Pair>, serviceType: Uuid, n: nat) returns (k: nat)
    requires n < |Matching(ps, serviceType)|
    ensures k < |ps| && ps[k] == Matching(ps, serviceType)[n] && ps[k].0.serviceType == serviceType
    ensures |Matching(ps[..k], serviceType)| == n
  {
    var init := ps[..|ps| - 1];
    if n < |Matching(init, serviceType)| {
      k := MatchingComesFrom(init, serviceType, n);
      assert init[..k] == ps[..k];
    } else {
      k := |ps| - 1;
    }
  }

  // ---- Main results ----

  /**
   Looking up the number of a listed pair gives the pair back, whether or not it is listed once; its
   number is below the number of instances of its type.
   */
  lemma LookupOfNumber(ps: seq<Pair>, p: Pair)
    requires p in ps
    ensures NumberOf(ps, p) < |Matching(ps, p.0.serviceType)|
    ensures Matching(ps, p.0.serviceType)[NumberOf(ps, p)] == p
  {
    var k := FirstIndex(ps, p);
    assert ps[..|ps|] == ps;
    MatchingAt(ps, k);
  }

  /** When every pair is listed once, the number of what a number looks up is that number. */
  lemma NumberOfLookup(ps: seq<Pair>, serviceType: Uuid, n: nat)
    requires forall i, j :: 0 <= i < j < |ps| ==> ps[i] != ps[j]
    requires n < |Matching(ps, serviceType)|
    ensures var p := Matching(ps, serviceType)[n];
            p in ps && p.0.serviceType == serviceType && NumberOf(ps, p) == n
  {
    var k := MatchingComesFrom(ps, serviceType, n);
    FirstIndexIsUnique(ps, ps[k], k);
  }

  // ---- The server's loops ----

  /** One pair more, and what it adds to the number of matches. */
  lemma NextMatch(ps: seq<Pair>, i: nat, serviceType: Uuid)
    requires i < |ps|
    ensures |Matching(ps[..i + 1], serviceType)|
            == |Matching(ps[..i], serviceType)| + if ps[i].0.serviceType == serviceType then 1 else 0
    ensures |Matching(ps[..i + 1], serviceType)| <= |Matching(ps, serviceType)|
  {
    assert ps[..i + 1][..i] == ps[..i];
    PrefixMatches(ps[..i + 1], ps, serviceType);
  }

  /** Counts the services of a type in one accessory, up to the width of the index; `None` when it overflows. */
  method CountInAccessory(acc: Accessory, serviceType: Uuid, start: uint16) returns (r: Option<uint16>)
    ensures var n := start + |Matching(PairsOf(acc), serviceType)|;
            r == if n <= UINT16_MAX then Some(n) else None
  {
    var index := start;
    var services := ServicesOf(acc);
    for i := 0 to |services|
      invariant index == start + |Matching(PairsOf(acc)[..i], serviceType)|
    {
      NextMatch(PairsOf(acc), i, serviceType);
      if services[i].serviceType == serviceType {
        if index == UINT16_MAX { return None; }
        index := index + 1;
      }
    }
    assert PairsOf(acc)[..|services|] == PairsOf(acc);
    return Some(index);
  }

  /** How many services of a type a list of accessories has. */
  function CountOf(accs: seq<Accessory>, serviceType: Uuid): nat {
    if accs == [] then 0
    else CountOf(accs[..|accs| - 1], serviceType) + |Matching(PairsOf(accs[|accs| - 1]), serviceType)|
  }

  lemma {:induction false} CountIsMatching(accs: seq<Accessory>, serviceType: Uuid)
    ensures CountOf(accs, serviceType) == |Matching(AllPairs(accs), serviceType)|
  {
    if accs != [] {
      CountIsMatching(accs[..|accs| - 1], serviceType);
      MatchingConcat(AllPairs(accs[..|accs| - 1]), PairsOf(accs[|accs| - 1]), serviceType);
    }
  }

  lemma CountNext(accs: seq<Accessory>, j: nat, serviceType: Uuid)
    requires j < |accs|
    ensures CountOf(accs[..j + 1], serviceType)
            == CountOf(accs[..j], serviceType) + |Matching(PairsOf(accs[j]), serviceType)|
    ensures CountOf(accs[..j + 1], serviceType) <= CountOf(accs, serviceType)
  {
    assert accs[..j + 1][..j] == accs[..j];
    CountOfPrefix(accs, j + 1, serviceType);
  }

  lemma {:induction false} CountOfPrefix(accs: seq<Accessory>, j: nat, serviceType: Uuid)
    requires j <= |accs|
    ensures CountOf(accs[..j], serviceType) <= CountOf(accs, serviceType)
  {
    if j == |accs| {
      assert accs[..j] == accs;
    } else {
      CountOfPrefix(accs[..|accs| - 1], j, serviceType);
      assert accs[..|accs| - 1][..j] == accs[..j];
    }
  }

  method CountInAccessories(accs: seq<Accessory>, serviceType: Uuid) returns (r: Option<uint16>)
    ensures var n := CountOf(accs, serviceType);
            r == if n <= UINT16_MAX then Some(n) else None
  {
    var index: uint16 := 0;
    for j := 0 to |accs|
      invariant index == CountOf(accs[..j], serviceType)
    {
      CountNext(accs, j, serviceType);
      var next := CountInAccessory(accs[j], serviceType, index);
      if next.None? { return None; }
      index := next.value;
    }
    assert accs[..|accs|] == accs;
    return Some(index);
  }

  method GetNumServiceInstances(server: Server, serviceType: Uuid) returns (r: Option<uint16>)
    ensures var n := |Matching(Pairs(server), serviceType)|;
            r == if n <= UINT16_MAX then Some(n) else None
  {
    CountIsMatching(Accessories(server), serviceType);
    r := CountInAccessories(Accessories(server), serviceType);
  }

  /** Accessories up to and including `j` list what those before it list, and its own. */
  lemma AccessoryAdds(accs: seq<Accessory>, j: nat, serviceType: Uuid)
    requires j < |accs|
    ensures AllPairs(accs[..j + 1]) == AllPairs(accs[..j]) + PairsOf(accs[j])
    ensures Matching(AllPairs(accs[..j + 1]), serviceType) ==
            Matching(AllPairs(accs[..j]), serviceType) + Matching(PairsOf(accs[j]), serviceType)
    ensures AllPairs(accs[..j + 1]) <= AllPairs(accs)
    ensures |Matching(AllPairs(accs[..j + 1]), serviceType)| <= |Matching(AllPairs(accs), serviceType)|
  {
    var prefix := accs[..j + 1];
    assert prefix[..|prefix| - 1] == accs[..j] && prefix[|prefix| - 1] == accs[j];
    MatchingConcat(AllPairs(accs[..j]), PairsOf(accs[j]), serviceType);
    PrefixOfAllPairs(accs, j + 1);
    PrefixMatches(AllPairs(prefix), AllPairs(accs), serviceType);
  }

  lemma {:induction false} PrefixOfAllPairs(accs: seq<Accessory>, j: nat)
    requires j <= |accs|
    ensures AllPairs(accs[..j]) <= AllPairs(accs)
  {
    if j == |accs| {
      assert accs[..j] == accs;
    } else {
      PrefixOfAllPairs(accs[..|accs| - 1], j);
      assert accs[..|accs| - 1][..j] == accs[..j];
    }
  }

  /** A pair that comes after a prefix has a number no smaller than the count of the prefix. */
  lemma NumberAfter(a: seq<Pair>, all: seq<Pair>, p: Pair)
    requires a <= all && p !in a && p in all
    ensures NumberOf(all, p) >= |Matching(a, p.0.serviceType)|
  {
    var k := FirstIndex(all, p);
    assert forall i :: 0 <= i < |a| ==> a[i] == all[i];
    assert all[..k] == a + all[|a|..k];
    MatchingConcat(a, all[|a|..k], p.0.serviceType);
  }

  /** The number of a pair that is listed in the second of two lists, but not in the first. */
  lemma NumberInConcat(a: seq<Pair>, b: seq<Pair>, all: seq<Pair>, p: Pair)
    requires p !in a && p in b && a + b <= all
    ensures p in all
    ensures NumberOf(all, p) == |Matching(a, p.0.serviceType)| + NumberOf(b, p)
  {
    var j := FirstIndex(b, p);
    var k := |a| + j;
    assert (a + b)[k] == p && all[k] == p;
    assert all[..k] == a + b[..j];
    FirstIndexIsUnique(all, p, k);
    MatchingConcat(a, b[..j], p.0.serviceType);
  }

  datatype Search = Found(index: uint16) | Missing(index: uint16) | Overflow

  /** What a search through pairs finds that starts to count at `start`. */
  predicate IsSearch(ps: seq<Pair>, p: Pair, start: nat, r: Search) {
    match r
    case Found(index) => p in ps && index == start + NumberOf(ps, p)
    case Missing(index) => p !in ps && index == start + |Matching(ps, p.0.serviceType)|
    case Overflow => start + (if p in ps then NumberOf(ps, p) else |Matching(ps, p.0.serviceType)|) > UINT16_MAX
  }

  /** A search that goes on where the one through `a` ended is a search through both. */
  lemma SearchGoesOn(a: seq<Pair>, b: seq<Pair>, p: Pair, r: Search)
    requires p !in a && IsSearch(b, p, |Matching(a, p.0.serviceType)|, r)
    ensures IsSearch(a + b, p, 0, r)
  {
    MatchingConcat(a, b, p.0.serviceType);
    if p in b {
      NumberInConcat(a, b, a + b, p);
    }
  }

  /** The outcome of a search through a prefix, for the whole list. */
  lemma SearchInPrefix(a: seq<Pair>, all: seq<Pair>, p: Pair, r: Search)
    requires a <= all && IsSearch(a, p, 0, r)
    ensures r.Found? ==> p in all && NumberOf(all, p) == r.index
    ensures r.Overflow? && p in all ==> NumberOf(all, p) > UINT16_MAX
  {
    if p in a {
      NumberInConcat([], a, all, p);
    } else if p in all {
      NumberAfter(a, all, p);
    }
  }

  /** Looks for a service of an accessory, counting those of its type on the way. */
  method FindInAccessory(acc: Accessory, p: Pair, start: uint16) returns (r: Search)
    ensures IsSearch(PairsOf(acc), p, start, r)
  {
    var index := start;
    var services := ServicesOf(acc);
    ghost var ps := PairsOf(acc);
    for i := 0 to |services|
      invariant p !in ps[..i]
      invariant index == start + |Matching(ps[..i], p.0.serviceType)|
    {
      assert ps[..i + 1] == ps[..i] + [ps[i]];
      if services[i] == p.0 && acc == p.1 {
        FirstIndexIsUnique(ps, p, i);
        return Found(index);
      }
      if services[i].serviceType == p.0.serviceType {
        if index == UINT16_MAX {
          if p in ps { NumberAfter(ps[..i + 1], ps, p); }
          PrefixMatches(ps[..i + 1], ps, p.0.serviceType);
          return Overflow;
        }
        index := index + 1;
      }
    }
    assert ps[..|services|] == ps;
    return Missing(index);
  }

  /** The number of a service; `None` when the server does not list it or the index overflows. */
  method GetServiceTypeIndex(server: Server, p: Pair) returns (r: Option<uint16>)
    ensures r == if p in Pairs(server) && NumberOf(Pairs(server), p) <= UINT16_MAX
                 then Some(NumberOf(Pairs(server), p)) else None
  {
    var accs := Accessories(server);
    var index: uint16 := 0;
    for j := 0 to |accs|
      invariant p !in AllPairs(accs[..j])
      invariant index == |Matching(AllPairs(accs[..j]), p.0.serviceType)|
    {
      var search := FindInAccessory(accs[j], p, index);
      AccessoryAdds(accs, j, p.0.serviceType);
      SearchGoesOn(AllPairs(accs[..j]), PairsOf(accs[j]), p, search);
      SearchInPrefix(AllPairs(accs[..j + 1]), Pairs(server), p, search);
      match search {
        case Found(found) => return Some(found);
        case Missing(next) => index := next;
        case Overflow => return None;
      }
    }
    assert accs[..|accs|] == accs;
    return None;
  }

  lemma PrefixMatches(a: seq<Pair>, all: seq<Pair>, serviceType: Uuid)
    requires a <= all
    ensures Matching(a, serviceType) <= Matching(all, serviceType)
  {
    assert all == a + all[|a|..];
    MatchingConcat(a, all[|a|..], serviceType);
  }

  /** Looks for the service of a type with a number in one accessory; `rest` is what remains to be skipped. */
  method LookupInAccessory(acc: Accessory, serviceType: Uuid, index: nat) returns (r: Option<Pair>, rest: nat)
    ensures var ms := Matching(PairsOf(acc), serviceType);
            && r == (if index < |ms| then Some(ms[index]) else None)
            && (r.None? ==> rest == index - |ms|)
  {
    rest := index;
    var services := ServicesOf(acc);
    ghost var ps := PairsOf(acc);
    for i := 0 to |services|
      invariant rest == index - |Matching(ps[..i], serviceType)|
    {
      assert ps[..i + 1][..i] == ps[..i];
      if services[i].serviceType == serviceType {
        if rest == 0 {
          MatchingAt(ps, i);
          return Some((services[i], acc)), rest;
        }
        rest := rest - 1;
      }
    }
    assert ps[..|services|] == ps;
    return None, rest;
  }

  /** The service of a type with a number; `None` when there are fewer of the type. */
  method GetServiceFromServiceTypeIndex(server: Server, serviceType: Uuid, index: nat) returns (r: Option<Pair>)
    ensures var ms := Matching(Pairs(server), serviceType);
            r == if index < |ms| then Some(ms[index]) else None
  {
    var accs := Accessories(server);
    var rest := index;
    for j := 0 to |accs|
      invariant rest == index - |Matching(AllPairs(accs[..j]), serviceType)|
    {
      AccessoryAdds(accs, j, serviceType);
      var p, remaining := LookupInAccessory(accs[j], serviceType, rest);
      if p.Some? {
        PrefixMatches(AllPairs(accs[..j + 1]), Pairs(server), serviceType);
        return p;
      }
      rest := remaining;
    }
    assert accs[..|accs|] == accs;
    return None;
  }
}
