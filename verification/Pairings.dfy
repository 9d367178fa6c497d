/**
 The pairings of an accessory: records of 70 bytes in the key-value store, found by enumerating them. A
 longer record is cut to 70 bytes when it is read, a shorter one is an error.
 They refine a finite map from pairing identifier to public key and permissions that is empty or has
 an admin.
 */
module Pairings {
  import opened Bytes
  import opened Options

  const RECORD_SIZE := 70

  /** An identifier of at most 36 bytes. */
  datatype PairingId = PairingId(bytes: IdBytes)

  type IdBytes = b: seq<byte> | |b| <= 36

  type PublicKey = k: seq<byte> | |k| == 32 witness Zeros(32)

  datatype Entry = Entry(publicKey: PublicKey, permissions: byte) {

    predicate IsAdmin() {
      permissions % 2 == 1
    }
  }

  datatype Slot = Slot(id: PairingId, entry: Entry)

  type Paired = map<PairingId, Entry>

  type Records = map<nat, seq<byte>>

  // ---- Record layout ----

  predicate IsRecord(b: seq<byte>) {
    |b| >= RECORD_SIZE && b[36] <= 36
  }

  function Decode(b: seq<byte>): Slot
    requires IsRecord(b)
  {
    Slot(PairingId(b[..b[36]]), Entry(b[37..69], b[69]))
  }

  /** Lays out a record: the identifier padded with zeros, its length, the public key and the permissions. */
  method BuildRecord(p: Slot) returns (b: seq<byte>)
    ensures |b| == RECORD_SIZE && IsRecord(b) && Decode(b) == p
    ensures b[..|p.id.bytes|] == p.id.bytes && b[|p.id.bytes|..36] == Zeros(36 - |p.id.bytes|)
    ensures b[36] == |p.id.bytes| && b[37..69] == p.entry.publicKey && b[69] == p.entry.permissions
  {
    var id := p.id.bytes;
    b := id + Zeros(36 - |id|) + [|id|] + p.entry.publicKey + [p.entry.permissions];
    assert b[36] == |id| && b[37..69] == p.entry.publicKey && b[69] == p.entry.permissions;
    assert b[..|id|] == id;
  }

  // ---- Slots ----

  ghost function Below(n: nat): (r: set<nat>)
    ensures |r| == n
    ensures forall k: nat :: k in r <==> k < n
  {
    if n == 0 then {}
    else
      var r := Below(n - 1);
      assert n - 1 !in r;
      r + {n - 1}
  }

  lemma {:induction false} SubsetSize<T>(a: set<T>, b: set<T>)
    requires a <= b
    ensures |a| <= |b|
  {
    if x :| x in a {
      SubsetSize(a - {x}, b - {x});
    }
  }

  /** All slots are taken exactly when there are as many records as slots. */
  lemma FullExactlyWhen(keys: set<nat>, maxPairings: nat)
    requires forall k :: k in keys ==> k < maxPairings
    ensures |keys| <= maxPairings
    ensures (forall k: nat :: k < maxPairings ==> k in keys) <==> |keys| == maxPairings
  {
    SubsetSize(keys, Below(maxPairings));
    if forall k: nat :: k < maxPairings ==> k in keys {
      assert keys == Below(maxPairings);
    } else {
      var k: nat :| k < maxPairings && k !in keys;
      SubsetSize(keys, Below(maxPairings) - {k});
    }
  }

  /** The slots in use and the slot of each pairing are inverse to each other. */
  ghost predicate Sound(slots: map<nat, Slot>, paired: Paired, slotOf: map<PairingId, nat>, maxPairings: nat) {
    && (forall k :: k in slots ==> k < maxPairings && slots[k].id in slotOf && slotOf[slots[k].id] == k)
    && (forall id :: id in slotOf <==> id in paired)
    && (forall id :: id in slotOf ==> slotOf[id] in slots && slots[slotOf[id]] == Slot(id, paired[id]))
  }

  /** What the records hold. */
  ghost predicate Holds(records: Records, slots: map<nat, Slot>) {
    && records.Keys == slots.Keys
    && (forall k :: k in records ==> IsRecord(records[k]) && Decode(records[k]) == slots[k])
  }

  lemma WriteKeepsHolds(records: Records, slots: map<nat, Slot>, k: nat, b: seq<byte>, p: Slot)
    requires Holds(records, slots) && IsRecord(b) && Decode(b) == p
    ensures Holds(records[k := b], slots[k := p])
  {
  }

  lemma EraseKeepsHolds(records: Records, slots: map<nat, Slot>, k: nat)
    requires Holds(records, slots)
    ensures Holds(records - {k}, slots - {k})
  {
  }

  lemma WriteKeepsSound(
    slots: map<nat, Slot>, paired: Paired, slotOf: map<PairingId, nat>, maxPairings: nat, k: nat, p: Slot)
    requires Sound(slots, paired, slotOf, maxPairings) && k < maxPairings
    requires if p.id in paired then slotOf[p.id] == k else k !in slots
    ensures Sound(slots[k := p], paired[p.id := p.entry], slotOf[p.id := k], maxPairings)
  {
  }

  lemma EraseKeepsSound(
    slots: map<nat, Slot>, paired: Paired, slotOf: map<PairingId, nat>, maxPairings: nat, id: PairingId)
    requires Sound(slots, paired, slotOf, maxPairings) && id in paired
    ensures Sound(slots - {slotOf[id]}, paired - {id}, slotOf - {id}, maxPairings)
  {
  }

  /** The records hold the pairings. */
  ghost predicate Represents(
    records: Records, slots: map<nat, Slot>, paired: Paired, slotOf: map<PairingId, nat>, maxPairings: nat)
  {
    Holds(records, slots) && Sound(slots, paired, slotOf, maxPairings)
  }

  /** A slot may be written when it is that of the identifier, or free for a new identifier. */
  ghost predicate MayWrite(
    slots: map<nat, Slot>, paired: Paired, slotOf: map<PairingId, nat>, maxPairings: nat, k: nat, id: PairingId)
  {
    k < maxPairings && if id in paired then id in slotOf && slotOf[id] == k else k !in slots
  }

  lemma WriteKeeps(
    records: Records, slots: map<nat, Slot>, paired: Paired, slotOf: map<PairingId, nat>, maxPairings: nat,
    k: nat, b: seq<byte>, p: Slot)
    requires Represents(records, slots, paired, slotOf, maxPairings)
    requires MayWrite(slots, paired, slotOf, maxPairings, k, p.id)
    requires IsRecord(b) && Decode(b) == p
    ensures Represents(records[k := b], slots[k := p], paired[p.id := p.entry], slotOf[p.id := k], maxPairings)
  {
    WriteKeepsHolds(records, slots, k, b, p);
    WriteKeepsSound(slots, paired, slotOf, maxPairings, k, p);
  }

  lemma EraseKeeps(
    records: Records, slots: map<nat, Slot>, paired: Paired, slotOf: map<PairingId, nat>, maxPairings: nat,
    k: nat, id: PairingId)
    requires Represents(records, slots, paired, slotOf, maxPairings) && id in paired && slotOf[id] == k
    ensures Represents(records - {k}, slots - {k}, paired - {id}, slotOf - {id}, maxPairings)
  {
    EraseKeepsHolds(records, slots, k);
    EraseKeepsSound(slots, paired, slotOf, maxPairings, id);
  }

  /** There are as many pairings as slots in use. */
  lemma {:induction false} SameSize(
    slots: map<nat, Slot>, paired: Paired, slotOf: map<PairingId, nat>, maxPairings: nat)
    requires Sound(slots, paired, slotOf, maxPairings)
    ensures |paired| == |slots|
    decreases |paired|
  {
    if id :| id in paired {
      EraseKeepsSound(slots, paired, slotOf, maxPairings, id);
      assert (slots - {slotOf[id]}).Keys == slots.Keys - {slotOf[id]};
      assert (paired - {id}).Keys == paired.Keys - {id};
      SameSize(slots - {slotOf[id]}, paired - {id}, slotOf - {id}, maxPairings);
    } else {
      assert slots.Keys == {} && paired.Keys == {};
    }
  }

  // ---- Rules ----

  ghost predicate HasAdmin(m: Paired) {
    exists id :: id in m && m[id].IsAdmin()
  }

  /** Without an admin no pairing is left. */
  ghost function Cleaned(m: Paired): Paired {
    if HasAdmin(m) then m else map[]
  }

  /** `Unknown` when the store cannot tell, `NotAdmin` when the controller is paired without admin rights. */
  datatype AddResult = Added | WrongKey | MaxPeers | NotAdmin | Unknown

  ghost function WithPairing(m: Paired, id: PairingId, e: Entry, maxPairings: nat): (AddResult, Paired) {
    if id in m then
      if m[id].publicKey == e.publicKey then (Added, Cleaned(m[id := e])) else (WrongKey, m)
    else if |m| >= maxPairings then (MaxPeers, m)
    else (Added, m[id := e])
  }

  ghost function WithoutPairing(m: Paired, id: PairingId): Paired {
    if id in m then Cleaned(m - {id}) else m
  }

  /** All pairings but that of an identifier are as they were. */
  ghost predicate OthersStay(m: Paired, t: Paired, id: PairingId) {
    forall k :: k != id ==> (k in t <==> k in m) && (k in m ==> t[k] == m[k])
  }

  /** Some other identifier has the admin permission, bit 0. */
  ghost predicate OtherAdmin(m: Paired, id: PairingId) {
    exists k :: k in m && k != id && m[k].permissions % 2 == 1
  }

  /**
   A new identifier gets exactly the key and the permissions of the request, if a slot is free. A known one
   gets the permissions, if the request has its key; when that leaves no admin, all pairings go. A request
   that is refused changes nothing.
   */
  lemma AddingEffect(m: Paired, id: PairingId, publicKey: PublicKey, permissions: byte, maxPairings: nat)
    ensures var (r, t) := WithPairing(m, id, Entry(publicKey, permissions), maxPairings);
            && r == (if id !in m then if |m| < maxPairings then Added else MaxPeers
                     else if m[id].publicKey == publicKey then Added else WrongKey)
            && (r != Added ==> t == m)
            && (r == Added ==>
                  if id !in m || permissions % 2 == 1 || OtherAdmin(m, id)
                  then && id in t && t[id].publicKey == publicKey && t[id].permissions == permissions
                       && OthersStay(m, t, id)
                  else t == map[])
  {
    var e := Entry(publicKey, permissions);
    if id in m && m[id].publicKey == publicKey {
      if permissions % 2 == 1 {
        assert m[id := e][id].IsAdmin();
      } else if k :| k in m && k != id && m[k].permissions % 2 == 1 {
        assert m[id := e][k].IsAdmin();
      }
    }
  }

  /** A removed pairing is gone; the others stay, or all go when no admin is left among them. */
  lemma RemovalEffect(m: Paired, id: PairingId)
    ensures var t := WithoutPairing(m, id);
            && id !in t
            && (if id !in m then t == m else if OtherAdmin(m, id) then OthersStay(m, t, id) else t == map[])
  {
    if k :| k in m && k != id && m[k].permissions % 2 == 1 {
      assert (m - {id})[k].IsAdmin();
    }
  }

  // ---- Operations ----

  /** The order in which the store enumerates the keys of the domain. */
  predicate Enumerates(order: seq<nat>, records: Records) {
    && (forall i :: 0 <= i < |order| ==> order[i] in records)
    && (forall k :: k in records ==> k in order)
  }

  ghost predicate HasCorrupt(records: Records) {
    exists k :: k in records && |records[k]| < RECORD_SIZE
  }

  datatype FindResult = Found(key: nat) | NotFound | Unreadable

  predicate Matches(b: seq<byte>, id: PairingId)
    requires |b| >= RECORD_SIZE
  {
    b[36] == |id.bytes| && b[..|id.bytes|] == id.bytes
  }

  class PairingStore {
    var records: Records
    var broadcastParameters: Option<seq<byte>>
    const maxPairings: nat

    // What the records hold, the pairings that they stand for, and the slot of each.
    ghost var slots: map<nat, Slot>
    ghost var paired: Paired
    ghost var slotOf: map<PairingId, nat>

    constructor (maxPairings: nat)
      ensures Valid() && records == map[] && paired == map[]
      ensures broadcastParameters.None? && this.maxPairings == maxPairings
    {
      records, broadcastParameters := map[], None;
      this.maxPairings := maxPairings;
      slots, paired, slotOf := map[], map[], map[];
    }

    ghost predicate Valid()
      reads this
    {
      Represents(records, slots, paired, slotOf, maxPairings)
    }

    /** Looks for the pairing of an identifier. */
    method Find(id: PairingId, order: seq<nat>) returns (r: FindResult)
      requires Enumerates(order, records)
      ensures match r
              case Found(k) => k in records && |records[k]| >= RECORD_SIZE && Matches(records[k], id)
              case NotFound =>
                forall k :: k in records ==> |records[k]| >= RECORD_SIZE && !Matches(records[k], id)
              case Unreadable => HasCorrupt(records)
      ensures Valid() ==>
                match r
                case Found(k) => id in paired && slotOf[id] == k
                case NotFound => id !in paired
                case Unreadable => false
    {
      for i := 0 to |order|
        invariant forall j :: 0 <= j < i ==> |records[order[j]]| >= RECORD_SIZE && !Matches(records[order[j]], id)
      {
        var b := records[order[i]];
        if |b| < RECORD_SIZE { return Unreadable; }
        if Matches(b, id) {
          assert Valid() ==> slots[order[i]].id == id;
          return Found(order[i]);
        }
      }
      assert forall k :: k in records ==> k in order;
      return NotFound;
    }

    /** Whether there are pairings at all, and whether one is that of an admin. */
    method FindAdmin(order: seq<nat>) returns (ok: bool, hasPairings: bool, adminFound: bool)
      requires Enumerates(order, records)
      ensures !ok ==> HasCorrupt(records)
      ensures ok ==> (hasPairings <==> records != map[])
      ensures ok ==>
                if adminFound then exists k :: k in records && |records[k]| >= RECORD_SIZE && records[k][69] % 2 == 1
                else forall k :: k in records ==> |records[k]| >= RECORD_SIZE && records[k][69] % 2 == 0
    {
      ok, hasPairings, adminFound := true, false, false;
      for i := 0 to |order|
        invariant !adminFound && (hasPairings <==> i > 0)
        invariant forall j :: 0 <= j < i ==> |records[order[j]]| >= RECORD_SIZE && records[order[j]][69] % 2 == 0
      {
        var b := records[order[i]];
        if |b| < RECORD_SIZE { return false, hasPairings, false; }
        hasPairings := true;
        if b[69] % 2 == 1 {
          assert order[i] in records;
          return true, true, true;
        }
      }
      assert forall k :: k in records ==> k in order;
      assert order != [] ==> order[0] in records;
    }

    lemma AdminInRecords(adminFound: bool)
      requires Valid()
      requires if adminFound then exists k :: k in records && records[k][69] % 2 == 1
               else forall k :: k in records ==> records[k][69] % 2 == 0
      ensures adminFound <==> HasAdmin(paired)
    {
      if k :| k in records && records[k][69] % 2 == 1 {
        assert slots[k] == Decode(records[k]) && paired[slots[k].id].IsAdmin();
      }
      if id :| id in paired && paired[id].IsAdmin() {
        assert Decode(records[slotOf[id]]) == slots[slotOf[id]];
      }
    }

    /** Removes all pairings and the broadcast parameters when no admin is left. */
    method CleanupPairings(order: seq<nat>) returns (ok: bool)
      requires Enumerates(order, records)
      modifies this
      ensures !ok ==> HasCorrupt(records) && records == old(records)
                      && broadcastParameters == old(broadcastParameters)
      ensures old(Valid()) ==>
                && ok && Valid() && paired == Cleaned(old(paired))
                && broadcastParameters == if HasAdmin(old(paired)) then old(broadcastParameters) else None
    {
      var hasPairings, adminFound;
      ok, hasPairings, adminFound := FindAdmin(order);
      if !ok { return; }
      if Valid() { AdminInRecords(adminFound); }
      if !adminFound {
        if hasPairings {
          records := map[];
        }
        slots, paired, slotOf := map[], map[], map[];
        broadcastParameters := None;
      }
    }

    /** The lowest slot without a record. */
    method FindSlot() returns (ok: bool, key: nat)
      ensures !ok ==> HasCorrupt(records)
      ensures ok ==> key <= maxPairings && (key < maxPairings ==> key !in records)
      ensures ok ==> forall k: nat :: k < key ==> k in records
      ensures Valid() ==> ok && (key == maxPairings <==> |paired| >= maxPairings)
    {
      ok, key := true, 0;
      while key < maxPairings && key in records
        invariant key <= maxPairings
        invariant forall k: nat :: k < key ==> k in records && |records[k]| >= RECORD_SIZE
      {
        if |records[key]| < RECORD_SIZE { return false, key; }
        key := key + 1;
      }
      if Valid() {
        SameSize(slots, paired, slotOf, maxPairings);
        FullExactlyWhen(slots.Keys, maxPairings);
      }
    }

    /** Writes a record to a slot: that of the identifier, or a free one for a new identifier. */
    method Write(key: nat, id: PairingId, e: Entry)
      requires Valid() ==> MayWrite(slots, paired, slotOf, maxPairings, key, id)
      modifies this`records, this`slots, this`paired, this`slotOf
      ensures key in records && IsRecord(records[key]) && Decode(records[key]) == Slot(id, e)
      ensures records == old(records)[key := records[key]]
      ensures old(Valid()) ==> Valid() && paired == old(paired)[id := e]
    {
      var b := BuildRecord(Slot(id, e));
      if Valid() {
        WriteKeeps(records, slots, paired, slotOf, maxPairings, key, b, Slot(id, e));
      }
      records := records[key := b];
      slots, paired, slotOf := slots[key := Slot(id, e)], paired[id := e], slotOf[id := key];
    }

    /** Deletes the record of a slot. */
    method Erase(key: nat, ghost id: PairingId)
      requires key in records
      requires Valid() ==> id in paired && slotOf[id] == key
      modifies this`records, this`slots, this`paired, this`slotOf
      ensures records == old(records) - {key}
      ensures old(Valid()) ==> Valid() && paired == old(paired) - {id}
    {
      if Valid() {
        EraseKeeps(records, slots, paired, slotOf, maxPairings, key, id);
      }
      records := records - {key};
      slots, paired, slotOf := slots - {key}, paired - {id}, slotOf - {id};
    }

    method ChangePermissions(key: nat, id: PairingId, e: Entry, order: seq<nat>) returns (r: AddResult)
      requires key in records && |records[key]| >= RECORD_SIZE
      requires Valid() ==> id in paired && slotOf[id] == key
      requires Enumerates(order, records)
      modifies this
      ensures r == Unknown ==> HasCorrupt(old(records))
      ensures old(Valid()) ==>
                && Valid() && (r == Added || r == WrongKey)
                && (r, paired) == WithPairing(old(paired), id, e, maxPairings)
    {
      if records[key][37..69] != e.publicKey { return WrongKey; }
      Write(key, id, e);
      var ok := CleanupPairings(order);
      return if ok then Added else Unknown;
    }

    method AddNew(id: PairingId, e: Entry) returns (r: AddResult)
      requires Valid() ==> id !in paired
      modifies this
      ensures r == Unknown ==> HasCorrupt(old(records))
      ensures old(Valid()) ==>
                && Valid() && (r == Added || r == MaxPeers)
                && (r, paired) == WithPairing(old(paired), id, e, maxPairings)
    {
      var ok, key := FindSlot();
      if !ok { return Unknown; }
      if key == maxPairings { return MaxPeers; }
      Write(key, id, e);
      return Added;
    }

    /** Adds a pairing, or changes the permissions of one, at the request of a controller. */
    method AddPairing(controller: nat, id: PairingId, e: Entry, order: seq<nat>) returns (r: AddResult)
      requires Enumerates(order, records)
      modifies this
      ensures r == Unknown ==> controller !in old(records) || HasCorrupt(old(records))
      ensures old(Valid()) ==>
                && Valid()
                && (r == Unknown <==> controller !in old(slots))
                && (r == NotAdmin <==> controller in old(slots) && !old(slots)[controller].entry.IsAdmin())
                && (if r == Unknown || r == NotAdmin then paired == old(paired)
                    else (r, paired) == WithPairing(old(paired), id, e, maxPairings))
    {
      if controller !in records { return Unknown; }
      if |records[controller]| < RECORD_SIZE { return Unknown; }
      if records[controller][69] % 2 == 0 { return NotAdmin; }

      var found := Find(id, order);
      match found {
        case Unreadable => return Unknown;
        case Found(key) => r := ChangePermissions(key, id, e, order);
        case NotFound => r := AddNew(id, e);
      }
    }

    /** Removes a pairing, if it is there. `after` enumerates the records that are left then. */
    method RemovePairing(id: PairingId, order: seq<nat>, after: seq<nat>) returns (ok: bool)
      requires Enumerates(order, records)
      requires forall k :: k in records && |records[k]| >= RECORD_SIZE && Matches(records[k], id)
                           ==> Enumerates(after, records - {k})
      modifies this
      ensures !ok ==> HasCorrupt(old(records))
      ensures old(Valid()) ==> ok && Valid() && paired == WithoutPairing(old(paired), id)
    {
      var found := Find(id, order);
      match found {
        case Unreadable => return false;
        case NotFound => return true;
        case Found(key) =>
          Erase(key, id);
          ok := CleanupPairings(after);
      }
    }

    /** Stores the pairing of the first controller, an admin; the procedure is open to unpaired accessories only. */
    method StoreFirstPairing(id: PairingId, publicKey: PublicKey)
      requires Valid() && records == map[] && maxPairings > 0
      modifies this
      ensures Valid() && paired == map[id := Entry(publicKey, 1)]
      ensures broadcastParameters == old(broadcastParameters)
    {
      assert paired == map[];
      Write(0, id, Entry(publicKey, 1));
    }
  }

  // ---- Runs ----

  datatype Request =
    | PairSetup(id: PairingId, publicKey: PublicKey)
    | Add(id: PairingId, entry: Entry)
    | Remove(id: PairingId)
    | Cleanup

  /** What a request does; pair setup is open only while nobody is paired, adding only to an admin. */
  ghost function Apply(m: Paired, q: Request, maxPairings: nat): Paired {
    match q
    case PairSetup(id, publicKey) => if m == map[] then map[id := Entry(publicKey, 1)] else m
    case Add(id, e) => if HasAdmin(m) then WithPairing(m, id, e, maxPairings).1 else m
    case Remove(id) => WithoutPairing(m, id)
    case Cleanup => Cleaned(m)
  }

  ghost function ApplyAll(m: Paired, qs: seq<Request>, maxPairings: nat): Paired {
    if qs == [] then m else Apply(ApplyAll(m, qs[..|qs| - 1], maxPairings), qs[|qs| - 1], maxPairings)
  }

  lemma SizeAfter(m: Paired, q: Request, maxPairings: nat)
    requires maxPairings > 0 && |m| <= maxPairings
    ensures |Apply(m, q, maxPairings)| <= maxPairings
  {
    match q
    case Add(id, e) =>
      assert m[id := e].Keys == m.Keys + {id};
      assert id in m ==> m.Keys + {id} == m.Keys;
    case Remove(id) =>
      assert (m - {id}).Keys == m.Keys - {id};
    case _ =>
  }

  lemma AdminAfter(m: Paired, q: Request, maxPairings: nat)
    requires m == map[] || HasAdmin(m)
    ensures var t := Apply(m, q, maxPairings); t == map[] || HasAdmin(t)
  {
    match q
    case PairSetup(id, publicKey) =>
      assert map[id := Entry(publicKey, 1)][id].IsAdmin();
    case Add(id, e) =>
      if HasAdmin(m) && id !in m {
        var admin :| admin in m && m[admin].IsAdmin();
        assert m[id := e][admin].IsAdmin();
      }
    case _ =>
  }

  /**
   Whatever is asked for, the accessory is never left with pairings of which none is an admin's, and
   never with more pairings than slots.
   */
  lemma {:induction false} AdminOrUnpaired(qs: seq<Request>, maxPairings: nat)
    requires maxPairings > 0
    ensures var m := ApplyAll(map[], qs, maxPairings);
            (m == map[] || HasAdmin(m)) && |m| <= maxPairings
  {
    if qs != [] {
      var init := qs[..|qs| - 1];
      AdminOrUnpaired(init, maxPairings);
      AdminAfter(ApplyAll(map[], init, maxPairings), qs[|qs| - 1], maxPairings);
      SizeAfter(ApplyAll(map[], init, maxPairings), qs[|qs| - 1], maxPairings);
    }
  }

  /** The request asks for this pairing. */
  predicate AsksFor(q: Request, id: PairingId, e: Entry) {
    q == Add(id, e) || (e.permissions == 1 && q == PairSetup(id, e.publicKey))
  }

  /** The request is about the pairing of this identifier and key. */
  predicate Concerns(q: Request, id: PairingId, publicKey: PublicKey) {
    q == Remove(id) || (q.Add? && q.id == id && q.entry.publicKey == publicKey)
  }

  lemma PairingAfter(m: Paired, q: Request, maxPairings: nat, id: PairingId)
    requires m == map[] || HasAdmin(m)
    requires id in Apply(m, q, maxPairings)
    ensures var e := Apply(m, q, maxPairings)[id];
            AsksFor(q, id, e) || (id in m && m[id] == e && !Concerns(q, id, e.publicKey))
  {
  }

  /**
   A pairing is what the last request asked for that was about its identifier and key: an addition, a change
   of permissions, or the pair setup that made it an admin's.
   */
  lemma {:induction false} PairingIsLastAskedFor(qs: seq<Request>, maxPairings: nat, id: PairingId)
    requires maxPairings > 0 && id in ApplyAll(map[], qs, maxPairings)
    ensures var e := ApplyAll(map[], qs, maxPairings)[id];
            exists n :: 0 <= n < |qs| && AsksFor(qs[n], id, e)
                        && forall k :: n < k < |qs| ==> !Concerns(qs[k], id, e.publicKey)
  {
    var init, q := qs[..|qs| - 1], qs[|qs| - 1];
    var m, e := ApplyAll(map[], init, maxPairings), ApplyAll(map[], qs, maxPairings)[id];
    AdminOrUnpaired(init, maxPairings);
    PairingAfter(m, q, maxPairings, id);
    if !AsksFor(q, id, e) {
      PairingIsLastAskedFor(init, maxPairings, id);
      var n :| 0 <= n < |init| && AsksFor(init[n], id, e)
               && forall k :: n < k < |init| ==> !Concerns(init[k], id, e.publicKey);
      assert qs[n] == init[n];
      assert forall k :: n < k < |init| ==> qs[k] == init[k];
    }
  }

  /** A public key stays bound to its identifier for as long as the identifier stays paired. */
  lemma {:induction false} PublicKeyStays(m: Paired, qs: seq<Request>, maxPairings: nat, id: PairingId)
    requires id in m
    requires forall n :: 0 <= n <= |qs| ==> id in ApplyAll(m, qs[..n], maxPairings)
    ensures id in ApplyAll(m, qs, maxPairings)
    ensures ApplyAll(m, qs, maxPairings)[id].publicKey == m[id].publicKey
  {
    assert qs[..|qs|] == qs;
    if qs != [] {
      var init := qs[..|qs| - 1];
      assert forall n :: 0 <= n <= |init| ==> init[..n] == qs[..n];
      PublicKeyStays(m, init, maxPairings, id);
    }
  }
}
