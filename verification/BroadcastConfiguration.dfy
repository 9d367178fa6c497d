/**
 The stored broadcast configuration: a record of the accessory ID followed by three bytes for each
 characteristic with broadcasts enabled, its ID and its interval, in ascending order of ID. The
 record is edited in place and refines a finite map from characteristic ID to interval.
 */
module BroadcastConfiguration {
  import opened Bytes
  import opened Options
  import opened Advertising

  const AID: uint16 := 1
  const BUFFER_SIZE := 2 + 3 * 42 + 1

  /** As many entries as fit before the test for free space fails; the comment in the original says 42. */
  const MAX_ENTRIES := 41

  datatype Entry = Entry(cid: uint16, interval: byte)

  type Configuration = map<uint16, byte>

  // ---- Record layout ----

  predicate HasLayout(b: seq<byte>) {
    2 <= |b| < BUFFER_SIZE && (|b| - 2) % 3 == 0
  }

  function Count(b: seq<byte>): nat
    requires HasLayout(b)
  {
    (|b| - 2) / 3
  }

  function EntryAt(b: seq<byte>, k: nat): Entry
    requires HasLayout(b) && k < Count(b)
  {
    Entry(ReadLittle16(b[2 + 3 * k..]), b[4 + 3 * k])
  }

  function Unpack(b: seq<byte>): (es: seq<Entry>)
    requires HasLayout(b)
    ensures |es| == Count(b)
    ensures forall k :: 0 <= k < |es| ==> es[k] == EntryAt(b, k)
  {
    seq(Count(b), k requires 0 <= k < Count(b) => EntryAt(b, k))
  }

  predicate Ascending(es: seq<Entry>) {
    forall j, k :: 0 <= j < k < |es| ==> es[j].cid < es[k].cid
  }

  predicate IntervalsValid(es: seq<Entry>) {
    forall k :: 0 <= k < |es| ==> ValidInterval(es[k].interval)
  }

  function ToMap(es: seq<Entry>): Configuration {
    if es == [] then map[]
    else
      var last := es[|es| - 1];
      ToMap(es[..|es| - 1])[last.cid := last.interval]
  }

  /** A record that only the operations below have written: ours, in order, with valid intervals. */
  ghost predicate Sound(record: Option<seq<byte>>) {
    record.Some? ==>
      && HasLayout(record.value) && ReadLittle16(record.value) == AID
      && Ascending(Unpack(record.value)) && IntervalsValid(Unpack(record.value))
  }

  /** The map that a record stands for. */
  ghost function Config(record: Option<seq<byte>>): Configuration
    requires Sound(record)
  {
    if record.None? then map[] else ToMap(Unpack(record.value))
  }

  // ---- Entries and maps ----

  lemma {:induction false} ToMapHasEntries(es: seq<Entry>, k: nat)
    requires Ascending(es) && k < |es|
    ensures es[k].cid in ToMap(es) && ToMap(es)[es[k].cid] == es[k].interval
  {
    if k < |es| - 1 {
      ToMapHasEntries(es[..|es| - 1], k);
    }
  }

  lemma {:induction false} ToMapHasNoOther(es: seq<Entry>, c: uint16)
    requires c in ToMap(es)
    ensures exists k :: 0 <= k < |es| && es[k].cid == c
  {
    if c == es[|es| - 1].cid {
      assert es[|es| - 1].cid == c;
    } else {
      var init := es[..|es| - 1];
      ToMapHasNoOther(init, c);
      var k :| 0 <= k < |init| && init[k].cid == c;
      assert es[k].cid == c;
    }
  }

  lemma {:induction false} ToMapSize(es: seq<Entry>)
    requires Ascending(es)
    ensures |ToMap(es)| == |es|
  {
    if es != [] {
      var init, last := es[..|es| - 1], es[|es| - 1];
      ToMapSize(init);
      if last.cid in ToMap(init) {
        ToMapHasNoOther(init, last.cid);
      }
      assert ToMap(es).Keys == ToMap(init).Keys + {last.cid};
    }
  }

  lemma ToMapOfAscending(es: seq<Entry>)
    requires Ascending(es)
    ensures |ToMap(es)| == |es|
    ensures forall k :: 0 <= k < |es| ==> es[k].cid in ToMap(es) && ToMap(es)[es[k].cid] == es[k].interval
    ensures forall c :: c in ToMap(es) ==> exists k :: 0 <= k < |es| && es[k].cid == c
  {
    ToMapSize(es);
    forall k | 0 <= k < |es|
      ensures es[k].cid in ToMap(es) && ToMap(es)[es[k].cid] == es[k].interval
    {
      ToMapHasEntries(es, k);
    }
    forall c | c in ToMap(es)
      ensures exists k :: 0 <= k < |es| && es[k].cid == c
    {
      ToMapHasNoOther(es, c);
    }
  }

  /** The ID is missing from entries that are smaller up to `k` and greater from there on. */
  lemma MissingBetween(es: seq<Entry>, k: nat, cid: uint16)
    requires Ascending(es) && k <= |es|
    requires forall j :: 0 <= j < k ==> es[j].cid < cid
    requires k < |es| ==> es[k].cid > cid
    ensures cid !in ToMap(es)
  {
    ToMapOfAscending(es);
  }

  function Insert(es: seq<Entry>, k: nat, e: Entry): (r: seq<Entry>)
    requires k <= |es|
    ensures |r| == |es| + 1
    ensures forall j :: 0 <= j < |r| ==> r[j] == if j < k then es[j] else if j == k then e else es[j - 1]
  {
    es[..k] + [e] + es[k..]
  }

  function Remove(es: seq<Entry>, k: nat): (r: seq<Entry>)
    requires k < |es|
    ensures |r| == |es| - 1
    ensures forall j :: 0 <= j < |r| ==> r[j] == es[if j < k then j else j + 1]
  {
    es[..k] + es[k + 1..]
  }

  lemma ToMapAppend(es: seq<Entry>, e: Entry)
    ensures ToMap(es + [e]) == ToMap(es)[e.cid := e.interval]
  {
    assert (es + [e])[..|es|] == es;
  }

  lemma UpdatesCommute(c: Configuration, x: Entry, y: Entry)
    requires x.cid != y.cid
    ensures c[x.cid := x.interval][y.cid := y.interval] == c[y.cid := y.interval][x.cid := x.interval]
  {
  }

  lemma RemovalCommutes(c: Configuration, cid: uint16, y: Entry)
    requires cid != y.cid
    ensures c[y.cid := y.interval] - {cid} == (c - {cid})[y.cid := y.interval]
  {
  }

  lemma {:induction false} InsertIsMapUpdate(es: seq<Entry>, k: nat, e: Entry)
    requires k <= |es|
    requires forall j :: k <= j < |es| ==> es[j].cid != e.cid
    ensures ToMap(Insert(es, k, e)) == ToMap(es)[e.cid := e.interval]
  {
    if k == |es| {
      ToMapAppend(es, e);
      assert Insert(es, k, e) == es + [e];
    } else {
      var init, last := es[..|es| - 1], es[|es| - 1];
      InsertIsMapUpdate(init, k, e);
      ToMapAppend(Insert(init, k, e), last);
      assert Insert(es, k, e) == Insert(init, k, e) + [last];
      UpdatesCommute(ToMap(init), e, last);
    }
  }

  lemma {:induction false} ReplaceIsMapUpdate(es: seq<Entry>, k: nat, interval: byte)
    requires Ascending(es) && k < |es|
    ensures ToMap(es[k := es[k].(interval := interval)]) == ToMap(es)[es[k].cid := interval]
  {
    var init, last := es[..|es| - 1], es[|es| - 1];
    var e := es[k].(interval := interval);
    if k == |es| - 1 {
      ToMapAppend(init, e);
      assert es[k := e] == init + [e];
    } else {
      ReplaceIsMapUpdate(init, k, interval);
      ToMapAppend(init[k := e], last);
      assert es[k := e] == init[k := e] + [last];
      UpdatesCommute(ToMap(init), e, last);
    }
  }

  lemma {:induction false} RemoveIsMapRemoval(es: seq<Entry>, k: nat)
    requires Ascending(es) && k < |es|
    ensures ToMap(Remove(es, k)) == ToMap(es) - {es[k].cid}
  {
    var init, last := es[..|es| - 1], es[|es| - 1];
    if k == |es| - 1 {
      MissingBetween(init, |init|, last.cid);
      assert Remove(es, k) == init;
      assert ToMap(init)[last.cid := last.interval] - {last.cid} == ToMap(init);
    } else {
      RemoveIsMapRemoval(init, k);
      ToMapAppend(Remove(init, k), last);
      assert Remove(es, k) == Remove(init, k) + [last];
      RemovalCommutes(ToMap(init), es[k].cid, last);
    }
  }

  // ---- Bytes and entries ----

  /** Entries with the same bytes are the same. */
  lemma SameEntry(a: seq<byte>, j: nat, b: seq<byte>, k: nat)
    requires HasLayout(a) && j < Count(a) && HasLayout(b) && k < Count(b)
    requires a[2 + 3 * j] == b[2 + 3 * k] && a[3 + 3 * j] == b[3 + 3 * k] && a[4 + 3 * j] == b[4 + 3 * k]
    ensures EntryAt(a, j) == EntryAt(b, k)
  {
  }

  lemma NewEntry(a: seq<byte>, k: nat, e: Entry)
    requires HasLayout(a) && k < Count(a)
    requires a[2 + 3 * k] == Little16(e.cid)[0] && a[3 + 3 * k] == Little16(e.cid)[1] && a[4 + 3 * k] == e.interval
    ensures EntryAt(a, k) == e
  {
  }

  lemma UnpackInsert(b: seq<byte>, k: nat, e: Entry, edited: seq<byte>)
    requires HasLayout(b) && k <= Count(b) && |b| + 3 < BUFFER_SIZE
    requires edited == b[..2 + 3 * k] + Little16(e.cid) + [e.interval] + b[2 + 3 * k..]
    ensures HasLayout(edited) && edited[..2] == b[..2]
    ensures Unpack(edited) == Insert(Unpack(b), k, e)
  {
    var i := 2 + 3 * k;
    assert |edited| == |b| + 3;
    assert forall j :: 0 <= j < |edited| ==>
      edited[j] == if j < i then b[j] else if j < i + 2 then Little16(e.cid)[j - i]
                else if j == i + 2 then e.interval else b[j - 3];
    forall j | 0 <= j < Count(edited)
      ensures EntryAt(edited, j) == Insert(Unpack(b), k, e)[j]
    {
      if j > k {
        SameEntry(edited, j, b, j - 1);
      } else if j < k {
        SameEntry(edited, j, b, j);
      } else {
        NewEntry(edited, k, e);
      }
    }
  }

  lemma UnpackReplace(b: seq<byte>, k: nat, interval: byte)
    requires HasLayout(b) && k < Count(b)
    ensures var edited := b[4 + 3 * k := interval];
            && HasLayout(edited) && edited[..2] == b[..2]
            && Unpack(edited) == Unpack(b)[k := Unpack(b)[k].(interval := interval)]
  {
    var edited := b[4 + 3 * k := interval];
    forall j | 0 <= j < Count(b)
      ensures EntryAt(edited, j) == Unpack(b)[k := Unpack(b)[k].(interval := interval)][j]
    {
      assert edited[2 + 3 * j] == b[2 + 3 * j] && edited[3 + 3 * j] == b[3 + 3 * j];
    }
  }

  lemma UnpackRemove(b: seq<byte>, k: nat, edited: seq<byte>)
    requires HasLayout(b) && k < Count(b)
    requires edited == b[..2 + 3 * k] + b[5 + 3 * k..]
    ensures HasLayout(edited) && edited[..2] == b[..2]
    ensures Unpack(edited) == Remove(Unpack(b), k)
  {
    assert |edited| == |b| - 3;
    assert forall j :: 0 <= j < |edited| ==> edited[j] == b[if j < 2 + 3 * k then j else j + 3];
    forall j | 0 <= j < Count(edited)
      ensures EntryAt(edited, j) == Remove(Unpack(b), k)[j]
    {
      if j < k {
        assert edited[2 + 3 * j] == b[2 + 3 * j] && edited[3 + 3 * j] == b[3 + 3 * j];
      } else {
        assert edited[2 + 3 * j] == b[5 + 3 * j] && edited[3 + 3 * j] == b[6 + 3 * j];
      }
    }
  }

  // ---- Records and maps ----

  /** Where a characteristic is found, or belongs, among the entries. */
  predicate IsPosition(es: seq<Entry>, k: nat, cid: uint16) {
    && k <= |es|
    && (forall j :: 0 <= j < k ==> es[j].cid < cid)
    && (k < |es| ==> es[k].cid >= cid)
  }

  lemma LookupAtPosition(b: seq<byte>, k: nat, cid: uint16)
    requires Sound(Some(b)) && IsPosition(Unpack(b), k, cid)
    ensures |Config(Some(b))| == Count(b)
    ensures cid in Config(Some(b)) <==> k < Count(b) && EntryAt(b, k).cid == cid
    ensures cid in Config(Some(b)) ==> Config(Some(b))[cid] == EntryAt(b, k).interval
  {
    ToMapOfAscending(Unpack(b));
    if !(k < Count(b) && EntryAt(b, k).cid == cid) {
      MissingBetween(Unpack(b), k, cid);
    }
  }

  lemma InsertKeepsOrder(es: seq<Entry>, k: nat, e: Entry)
    requires Ascending(es) && IntervalsValid(es) && ValidInterval(e.interval)
    requires IsPosition(es, k, e.cid) && (k < |es| ==> es[k].cid != e.cid)
    ensures Ascending(Insert(es, k, e)) && IntervalsValid(Insert(es, k, e))
    ensures forall j :: k <= j < |es| ==> es[j].cid != e.cid
  {
  }

  lemma InsertedRecord(b: seq<byte>, k: nat, e: Entry, edited: seq<byte>)
    requires Sound(Some(b)) && |b| + 3 < BUFFER_SIZE && IsPosition(Unpack(b), k, e.cid)
    requires e.cid !in Config(Some(b)) && ValidInterval(e.interval)
    requires edited == b[..2 + 3 * k] + Little16(e.cid) + [e.interval] + b[2 + 3 * k..]
    ensures Sound(Some(edited)) && Config(Some(edited)) == Config(Some(b))[e.cid := e.interval]
  {
    LookupAtPosition(b, k, e.cid);
    UnpackInsert(b, k, e, edited);
    InsertKeepsOrder(Unpack(b), k, e);
    InsertIsMapUpdate(Unpack(b), k, e);
    assert ReadLittle16(edited) == ReadLittle16(edited[..2]);
  }

  lemma ReplacedRecord(b: seq<byte>, k: nat, interval: byte)
    requires Sound(Some(b)) && k < Count(b) && ValidInterval(interval)
    ensures var edited := b[4 + 3 * k := interval];
            Sound(Some(edited)) && Config(Some(edited)) == Config(Some(b))[EntryAt(b, k).cid := interval]
  {
    UnpackReplace(b, k, interval);
    ReplaceIsMapUpdate(Unpack(b), k, interval);
  }

  lemma RemoveKeepsOrder(es: seq<Entry>, k: nat)
    requires Ascending(es) && IntervalsValid(es) && k < |es|
    ensures Ascending(Remove(es, k)) && IntervalsValid(Remove(es, k))
  {
  }

  lemma RemovedRecord(b: seq<byte>, k: nat, edited: seq<byte>)
    requires Sound(Some(b)) && k < Count(b)
    requires edited == b[..2 + 3 * k] + b[5 + 3 * k..]
    ensures Sound(Some(edited)) && Config(Some(edited)) == Config(Some(b)) - {EntryAt(b, k).cid}
    ensures Config(Some(edited)) == map[] <==> |edited| == 2
  {
    UnpackRemove(b, k, edited);
    RemoveKeepsOrder(Unpack(b), k);
    RemoveIsMapRemoval(Unpack(b), k);
    ToMapOfAscending(Unpack(edited));
  }

  /** The ID of an entry by its bytes, the lower one first. */
  function CidAt(b: seq<byte>, k: nat): nat
    requires 2 + 3 * k + 2 <= |b|
  {
    (b[2 + 3 * k] as int) + 0x100 * (b[3 + 3 * k] as int)
  }

  lemma EntryBytes(b: seq<byte>, k: nat)
    requires HasLayout(b) && k < Count(b)
    ensures Unpack(b)[k] == Entry(CidAt(b, k), b[4 + 3 * k])
  {
    assert Unpack(b)[k] == EntryAt(b, k);
  }

  lemma EntryInMap(es: seq<Entry>, k: nat)
    requires Ascending(es) && k < |es|
    ensures |ToMap(es)| == |es| && es[k].cid in ToMap(es) && ToMap(es)[es[k].cid] == es[k].interval
    ensures k > 0 ==> es[k - 1].cid < es[k].cid
  {
    ToMapOfAscending(es);
  }

  /**
   The bytes of a record: accessory ID 1, then three bytes for each entry of the map, in ascending order of
   characteristic ID, with the interval last.
   */
  lemma RecordBytes(b: seq<byte>, k: nat)
    requires Sound(Some(b)) && k < Count(b)
    ensures |b| == 2 + 3 * |Config(Some(b))| && b[..2] == [0x01, 0x00]
    ensures CidAt(b, k) in Config(Some(b)) && Config(Some(b))[CidAt(b, k)] == b[4 + 3 * k]
    ensures k > 0 ==> CidAt(b, k - 1) < CidAt(b, k)
  {
    EntryInMap(Unpack(b), k);
    EntryBytes(b, k);
    if k > 0 {
      EntryBytes(b, k - 1);
    }
  }

  // ---- Operations ----

  datatype Loaded = Corrupt | Absent | Present(bytes: seq<byte>)

  /** What a look for the record of the accessory yields. */
  function Load(record: Option<seq<byte>>): (r: Loaded)
    ensures r.Present? ==> record == Some(r.bytes) && HasLayout(r.bytes) && ReadLittle16(r.bytes) == AID
  {
    match record
    case None => Absent
    case Some(b) =>
      if !HasLayout(b) then Corrupt
      else if ReadLittle16(b) != AID then Absent
      else Present(b)
  }

  datatype Operation = EnableOp(cid: uint16, interval: Interval) | DisableOp(cid: uint16)

  /** What the operations do to the map. */
  function Apply(c: Configuration, op: Operation): Configuration {
    match op
    case EnableOp(cid, interval) => if cid in c || |c| < MAX_ENTRIES then c[cid := interval] else c
    case DisableOp(cid) => c - {cid}
  }

  class ConfigurationStore {
    var record: Option<seq<byte>>

    constructor ()
      ensures record == None
    {
      record := None;
    }

    /** Reads the record into a buffer. */
    method LoadInto(bytes: array<byte>) returns (ok: bool, found: bool, numBytes: nat)
      requires bytes.Length == BUFFER_SIZE
      modifies bytes
      ensures match Load(record)
              case Corrupt => !ok
              case Absent => ok && !found
              case Present(b) => ok && found && numBytes == |b| && bytes[..numBytes] == b
    {
      ok, found, numBytes := true, false, 0;
      if record.None? {
        return;
      }
      var b := record.value;
      numBytes := if |b| < bytes.Length then |b| else bytes.Length;
      var p := Put(bytes, 0, b[..numBytes]);
      assert bytes[..numBytes] == b[..numBytes];
      if numBytes < 2 || numBytes == bytes.Length || (numBytes - 2) % 3 != 0 {
        return false, false, numBytes;
      }
      assert b[..numBytes] == b;
      found := (bytes[0] as int) + 0x100 * (bytes[1] as int) == AID;
    }

    /** The entry of a characteristic, or the place where it belongs. */
    method Find(bytes: array<byte>, numBytes: nat, cid: uint16) returns (k: nat, found: bool)
      requires numBytes <= bytes.Length && HasLayout(bytes[..numBytes])
      ensures IsPosition(Unpack(bytes[..numBytes]), k, cid)
      ensures found <==> k < Count(bytes[..numBytes]) && EntryAt(bytes[..numBytes], k).cid == cid
    {
      ghost var es := Unpack(bytes[..numBytes]);
      k, found := 0, false;
      var i := 2;
      while i < numBytes
        invariant i == 2 + 3 * k && k <= |es|
        invariant forall j :: 0 <= j < k ==> es[j].cid < cid
      {
        var itemCid := (bytes[i] as int) + 0x100 * (bytes[i + 1] as int);
        assert es[k].cid == itemCid;
        if itemCid >= cid {
          found := itemCid == cid;
          return;
        }
        k := k + 1;
        i := i + 3;
      }
    }

    method Get(cid: uint16) returns (ok: bool, interval: Option<byte>)
      ensures Load(record).Corrupt? ==> !ok
      ensures Sound(record) ==>
                ok && interval == if cid in Config(record) then Some(Config(record)[cid]) else None
      ensures ok && interval.Some? ==> ValidInterval(interval.value)
    {
      var bytes := new byte[BUFFER_SIZE];
      var loaded, found, numBytes := LoadInto(bytes);
      interval := None;
      if !loaded { return false, None; }
      if !found { return true, None; }

      var k, isEntry := Find(bytes, numBytes, cid);
      if Sound(record) { LookupAtPosition(record.value, k, cid); }
      if !isEntry { return true, None; }
      var stored := bytes[4 + 3 * k];
      assert stored == EntryAt(bytes[..numBytes], k).interval;
      if !ValidInterval(stored) { return false, None; }
      return true, Some(stored);
    }

    /** Changes the interval of an entry. */
    method Replace(bytes: array<byte>, numBytes: nat, k: nat, interval: byte) returns (ok: bool)
      requires numBytes <= bytes.Length && Load(record) == Present(bytes[..numBytes])
      requires k < Count(bytes[..numBytes]) && ValidInterval(interval)
      modifies this, bytes
      ensures !ok ==> record == old(record)
      ensures Sound(old(record)) ==>
                && ok && Sound(record)
                && Config(record) == Config(old(record))[EntryAt(old(record).value, k).cid := interval]
    {
      ghost var b := bytes[..numBytes];
      var stored := bytes[4 + 3 * k];
      assert stored == EntryAt(b, k).interval;
      if Sound(record) { ReplacedRecord(b, k, interval); }
      if !ValidInterval(stored) { return false; }
      if stored == interval {
        assert b[4 + 3 * k := interval] == b;
        return true;
      }
      bytes[4 + 3 * k] := interval;
      assert bytes[..numBytes] == b[4 + 3 * k := interval];
      record := Some(bytes[..numBytes]);
      return true;
    }

    /** Adds an entry. */
    method InsertEntry(bytes: array<byte>, numBytes: nat, k: nat, cid: uint16, interval: byte)
      requires bytes.Length == BUFFER_SIZE && numBytes + 3 < BUFFER_SIZE && HasLayout(bytes[..numBytes])
      requires k <= Count(bytes[..numBytes])
      modifies this, bytes
      ensures var b := old(bytes[..numBytes]);
              record == Some(b[..2 + 3 * k] + Little16(cid) + [interval] + b[2 + 3 * k..])
    {
      ghost var b := bytes[..numBytes];
      var i := 2 + 3 * k;
      CopyBytes(bytes, i + 3, i, numBytes - i);
      assert bytes[..i] == b[..i] && bytes[i + 3..numBytes + 3] == b[i..];
      var p := Put(bytes, i, Little16(cid) + [interval]);
      assert bytes[..numBytes + 3] == bytes[..p] + bytes[p..][..numBytes - i];
      record := Some(bytes[..numBytes + 3]);
      assert record.value == b[..i] + (Little16(cid) + [interval]) + b[i..];
      assert b[..i] + (Little16(cid) + [interval]) == b[..i] + Little16(cid) + [interval];
    }

    method Enable(cid: uint16, interval: byte) returns (ok: bool)
      requires ValidInterval(interval)
      modifies this
      ensures Load(old(record)).Corrupt? ==> !ok
      ensures !ok ==> record == old(record)
      ensures Sound(old(record)) ==>
                && Sound(record)
                && (ok <==> cid in Config(old(record)) || |Config(old(record))| < MAX_ENTRIES)
                && Config(record) == Apply(Config(old(record)), EnableOp(cid, interval))
    {
      var bytes := new byte[BUFFER_SIZE];
      var loaded, found, numBytes := LoadInto(bytes);
      if !loaded { return false; }
      if !found {
        var p := Put(bytes, 0, Little16(AID));
        numBytes := 2;
      }
      ghost var b := bytes[..numBytes];
      assert ReadLittle16(b) == AID;
      ghost var sound := Sound(record);
      assert sound ==> Sound(Some(b)) && Config(Some(b)) == Config(record);

      var k, isEntry := Find(bytes, numBytes, cid);
      if sound { LookupAtPosition(b, k, cid); }
      if isEntry {
        ok := Replace(bytes, numBytes, k, interval);
        return;
      }
      if numBytes >= bytes.Length - 1 - 3 { return false; }
      InsertEntry(bytes, numBytes, k, cid, interval);
      if sound { InsertedRecord(b, k, Entry(cid, interval), record.value); }
      return true;
    }

    /** Removes an entry, and the record with its last entry. */
    method RemoveEntry(bytes: array<byte>, numBytes: nat, k: nat)
      requires numBytes <= bytes.Length && HasLayout(bytes[..numBytes])
      requires k < Count(bytes[..numBytes])
      modifies this, bytes
      ensures var b := old(bytes[..numBytes]);
              record == if numBytes == 5 then None else Some(b[..2 + 3 * k] + b[5 + 3 * k..])
    {
      ghost var b := bytes[..numBytes];
      var i := 2 + 3 * k;
      var remaining := numBytes - 3;
      CopyBytes(bytes, i, i + 3, remaining - i);
      assert bytes[..remaining] == b[..i] + b[i + 3..];
      if remaining == 2 {
        record := None;
      } else {
        record := Some(bytes[..remaining]);
      }
    }

    method Disable(cid: uint16) returns (ok: bool)
      modifies this
      ensures Load(old(record)).Corrupt? ==> !ok
      ensures !ok ==> record == old(record)
      ensures Sound(old(record)) ==>
                && ok && Sound(record)
                && Config(record) == Apply(Config(old(record)), DisableOp(cid))
                && (cid in Config(old(record)) && Config(record) == map[] ==> record == None)
                && (cid !in Config(old(record)) ==> record == old(record))
    {
      var bytes := new byte[BUFFER_SIZE];
      var loaded, found, numBytes := LoadInto(bytes);
      if !loaded { return false; }
      if !found { return true; }
      ghost var b := bytes[..numBytes];

      var k, isEntry := Find(bytes, numBytes, cid);
      if Sound(record) { LookupAtPosition(b, k, cid); }
      if !isEntry { return true; }
      var stored := bytes[4 + 3 * k];
      assert stored == EntryAt(b, k).interval;
      if !ValidInterval(stored) { return false; }

      if Sound(record) { RemovedRecord(b, k, b[..2 + 3 * k] + b[5 + 3 * k..]); }
      RemoveEntry(bytes, numBytes, k);
      return true;
    }
  }

  // ---- Runs ----

  function ApplyAll(c: Configuration, ops: seq<Operation>): Configuration {
    if ops == [] then c else Apply(ApplyAll(c, ops[..|ops| - 1]), ops[|ops| - 1])
  }

  /** A store never holds more than 41 entries, one less than its comment allows for. */
  lemma {:induction false} AtMost41Entries(ops: seq<Operation>)
    ensures |ApplyAll(map[], ops)| <= MAX_ENTRIES
  {
    if ops != [] {
      var init := ApplyAll(map[], ops[..|ops| - 1]);
      AtMost41Entries(ops[..|ops| - 1]);
      match ops[|ops| - 1]
      case EnableOp(cid, interval) =>
        assert init[cid := interval].Keys == init.Keys + {cid};
      case DisableOp(cid) =>
        assert (init - {cid}).Keys == init.Keys - {cid};
    }
  }

  /** What the last operation on a characteristic left. */
  function LastOn(ops: seq<Operation>, cid: uint16): Option<byte> {
    if ops == [] then None
    else
      match ops[|ops| - 1]
      case EnableOp(c, interval) => if c == cid then Some(interval) else LastOn(ops[..|ops| - 1], cid)
      case DisableOp(c) => if c == cid then None else LastOn(ops[..|ops| - 1], cid)
  }

  /** The characteristics that the operations are about. */
  function Touched(ops: seq<Operation>): set<uint16> {
    set op | op in ops :: op.cid
  }

  lemma SmallerSet(a: set<uint16>, b: set<uint16>)
    requires a <= b
    ensures |a| <= |b|
  {
    assert b == a + (b - a);
  }

  /** With at most 41 characteristics, the store holds exactly what the last operation on each left. */
  lemma {:induction false} LastOperationHolds(ops: seq<Operation>, cids: set<uint16>, cid: uint16)
    requires Touched(ops) <= cids && |cids| <= 41
    ensures ApplyAll(map[], ops).Keys <= cids
    ensures cid in ApplyAll(map[], ops) <==> LastOn(ops, cid).Some?
    ensures cid in ApplyAll(map[], ops) ==> ApplyAll(map[], ops)[cid] == LastOn(ops, cid).value
  {
    if ops != [] {
      var init, op := ops[..|ops| - 1], ops[|ops| - 1];
      assert op in ops && op.cid in Touched(ops);
      assert Touched(init) <= Touched(ops);
      LastOperationHolds(init, cids, cid);
      var c := ApplyAll(map[], init);
      if op.cid !in c {
        SmallerSet(c.Keys, cids - {op.cid});
      }
    }
  }
}
