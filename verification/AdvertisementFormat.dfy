/**
 The bytes of the advertisements: the regular format with its scan response, and the encrypted
 notification format. Both are sequences of AD structures (Bluetooth Core Specification, Vol 3,
 Part C, section 11).
 */
module AdvertisementFormat {
  import opened Bytes
  import opened Options
  import opened StoredRecords
  import opened Advertising
  import opened Firmware
  import opened NonceUniqueness

  type SetupHash = h: seq<byte> | |h| == 4 witness Zeros(4)

  /** A device name shorter than 255 bytes. */
  type Name = n: seq<byte> | |n| < 255

  /** What a regular advertisement tells; the setup hash is present when a setup ID is provisioned. */
  datatype Identity = Identity(
    paired: bool, deviceId: DeviceId, category: uint16, gsn: uint16, configuration: uint16, hash: Option<SetupHash>)

  const FLAGS: seq<byte> := [0x02, 0x01, 0x06]

  /** Vendor, format and status: the fields of the manufacturer data before the device ID. */
  function VendorFields(id: Identity): (d: seq<byte>)
    ensures |d| == 6
  {
    [0xFF] + Little16(0x004C) + [0x06, if id.hash.Some? then 0x31 else 0x2D, if id.paired then 0 else 1]
  }

  /** Category, GSN, configuration number and compatible version. */
  function NumberFields(id: Identity): (d: seq<byte>)
    ensures |d| == 6
  {
    Little16(id.category) + Little16(id.gsn) + [Narrow8(id.configuration), 0x02]
  }

  /** Manufacturer data of the regular format, without its length byte. */
  function ManufacturerData(id: Identity): (d: seq<byte>)
    ensures |d| == if id.hash.Some? then 22 else 18
  {
    var d := VendorFields(id) + id.deviceId + NumberFields(id);
    if id.hash.Some? then d + id.hash.value else d
  }

  /** A name field: type 0x09 for the complete name, 0x08 for its longest prefix that fits `room` bytes. */
  function NameField(name: Name, room: nat): seq<byte> {
    if |name| > room then [room + 1, 0x08] + name[..room] else [|name| + 1, 0x09] + name
  }

  function Header(id: Identity): seq<byte> {
    FLAGS + [|ManufacturerData(id)|] + ManufacturerData(id)
  }

  function RegularAdvertisement(id: Identity, name: Name, max: nat): seq<byte>
    requires max >= 31
  {
    Header(id) + NameField(name, max - |Header(id)| - 2)
  }

  /** The scan response carries the name when the advertisement has to shorten it. */
  function ScanResponse(id: Identity, name: Name, max: nat, maxScan: nat): seq<byte>
    requires max >= 31
  {
    if |name| <= max - |Header(id)| - 2 || maxScan < 2 then [] else NameField(name, maxScan - 2)
  }

  lemma NameFieldParts(name: Name, room: nat)
    ensures var n := if |name| > room then room else |name|;
            NameField(name, room) == [n + 1, if |name| > room then 0x08 else 0x09] + name[..n]
  {
    assert name[..|name|] == name;
  }

  method PutName(a: array<byte>, at: nat, name: Name, room: nat) returns (next: nat)
    requires at + 2 + room <= a.Length
    modifies a
    ensures next <= at + 2 + room
    ensures a[..next] == old(a[..at]) + NameField(name, room)
  {
    var numNameBytes, kind := |name|, 0x09;
    if numNameBytes > room {
      numNameBytes, kind := room, 0x08;
    }
    ghost var before := a[..at];
    next := Put(a, at, [numNameBytes + 1, kind]);
    next := Put(a, next, name[..numNameBytes]);
    NameFieldParts(name, room);
    Associative(before, [numNameBytes + 1, kind], name[..numNameBytes]);
  }

  method PutHeader(id: Identity, adv: array<byte>) returns (p: nat)
    requires adv.Length >= 31
    modifies adv
    ensures p == |Header(id)| && p <= 26
    ensures adv[..p] == Header(id)
  {
    p := PutFields(id, adv);
    if id.hash.Some? {
      p := Put(adv, p, id.hash.value);
      assert adv[..p] == FLAGS + [|ManufacturerData(id)|] + ManufacturerData(id);
    }
  }

  /** The flags and the manufacturer data up to where a setup hash may follow. */
  method PutFields(id: Identity, adv: array<byte>) returns (p: nat)
    requires adv.Length >= 31
    modifies adv
    ensures p == 22
    ensures adv[..p] == FLAGS + [|ManufacturerData(id)|] + (VendorFields(id) + id.deviceId + NumberFields(id))
  {
    var hasSetupId := id.hash.Some?;
    p := Put(adv, 0, [0x02, 0x01, 0x06]);
    p := Put(adv, p, [0x12 + if hasSetupId then 4 else 0]);
    ghost var start := adv[..p];
    p := Put(adv, p, [0xFF] + Little16(0x004C) + [0x06, 0x2D + if hasSetupId then 4 else 0, if id.paired then 0 else 1]);
    ghost var vendor := adv[..p];
    assert vendor == start + VendorFields(id);
    p := Put(adv, p, id.deviceId);
    ghost var device := adv[..p];
    assert device == start + (VendorFields(id) + id.deviceId);
    p := Put(adv, p, NumberFields(id));
    Associative(start, VendorFields(id) + id.deviceId, NumberFields(id));
  }

  /** The name again, when it does not fit the advertisement. */
  method PutScanResponse(name: Name, room: nat, scan: array<byte>) returns (numScan: nat)
    modifies scan
    ensures numScan <= scan.Length
    ensures scan[..numScan] == if |name| <= room || scan.Length < 2 then [] else NameField(name, scan.Length - 2)
  {
    numScan := 0;
    if |name| > room && scan.Length >= 2 {
      numScan := PutName(scan, 0, name, scan.Length - 2);
    }
  }

  method WriteRegular(id: Identity, name: Name, adv: array<byte>, scan: array<byte>)
    returns (numAdv: nat, numScan: nat)
    requires adv.Length >= 31 && adv != scan
    modifies adv, scan
    ensures numAdv <= adv.Length && numScan <= scan.Length
    ensures adv[..numAdv] == RegularAdvertisement(id, name, adv.Length)
    ensures scan[..numScan] == ScanResponse(id, name, adv.Length, scan.Length)
  {
    var p := PutHeader(id, adv);
    var room := adv.Length - p - 2;
    numScan := PutScanResponse(name, room, scan);
    numAdv := PutName(adv, p, name, room);
  }

  // ---- Reading the advertisement back ----

  datatype AdStructure = AdStructure(kind: byte, data: seq<byte>)

  /** The AD structures of an advertisement; `None` when a length byte is zero or runs past the end. */
  function ParseStructures(b: seq<byte>): Option<seq<AdStructure>>
    decreases |b|
  {
    if b == [] then Some([])
    else
      var length := b[0] as int;
      if length == 0 || |b| < length + 1 then None
      else
        match ParseStructures(b[length + 1..])
        case None => None
        case Some(rest) => Some([AdStructure(b[1], b[2..length + 1])] + rest)
  }

  /**
   The identity that manufacturer data tells, with the advertised byte for its configuration number.
   The byte after the type holds a subtype in its upper three bits and in its lower five bits the
   number of bytes that follow.
   */
  function ParseManufacturer(d: seq<byte>): Option<Identity> {
    if |d| < 17 || ReadLittle16(d) != 0x004C || d[2] != 0x06 then None
    else if d[3] / 32 != 1 || d[3] % 32 != |d| - 4 || d[16] != 0x02 || (|d| != 17 && |d| != 21) then None
    else Some(Identity(d[4] == 0, d[5..11], ReadLittle16(d[11..]), ReadLittle16(d[13..]), d[15],
                       if |d| == 21 then Some(d[17..]) else None))
  }

  function Encoded(a: AdStructure): seq<byte>
    requires |a.data| < 255
  {
    [|a.data| + 1, a.kind] + a.data
  }

  lemma ParseCons(a: AdStructure, rest: seq<byte>, parsed: seq<AdStructure>)
    requires |a.data| < 255 && ParseStructures(rest) == Some(parsed)
    ensures ParseStructures(Encoded(a) + rest) == Some([a] + parsed)
  {
    var b := Encoded(a) + rest;
    assert b[|a.data| + 2..] == rest && b[2..|a.data| + 2] == a.data;
  }

  lemma ParseTwo(a: AdStructure, c: AdStructure, rest: seq<byte>, parsed: seq<AdStructure>)
    requires |a.data| < 255 && |c.data| < 255 && ParseStructures(rest) == Some(parsed)
    ensures ParseStructures(Encoded(a) + Encoded(c) + rest) == Some([a] + [c] + parsed)
  {
    ParseCons(c, rest, parsed);
    ParseCons(a, Encoded(c) + rest, [c] + parsed);
    Associative(Encoded(a), Encoded(c), rest);
    Associative([a], [c], parsed);
  }

  function ShownName(name: Name, room: nat): AdStructure {
    if |name| > room then AdStructure(0x08, name[..room]) else AdStructure(0x09, name)
  }

  lemma ParseName(name: Name, room: nat)
    ensures ParseStructures(NameField(name, room)) == Some([ShownName(name, room)])
  {
    var shown := ShownName(name, room);
    ParseCons(shown, [], []);
    assert Encoded(shown) + [] == NameField(name, room);
    assert [shown] + [] == [shown];
  }

  lemma ManufacturerRoundTrip(id: Identity)
    ensures ParseManufacturer(ManufacturerData(id)[1..])
            == Some(id.(configuration := Narrow8(id.configuration)))
  {
    var m := ManufacturerData(id);
    var hash := if id.hash.Some? then id.hash.value else [];
    assert m == VendorFields(id) + id.deviceId + (NumberFields(id) + hash);
    MiddleOf(VendorFields(id), id.deviceId, NumberFields(id) + hash);
    assert m[6..12] == id.deviceId && m[12..] == NumberFields(id) + hash;
    ManufacturerFields(id, m[1..], hash);
  }

  /** The fields at their places in the manufacturer data without its type byte. */
  lemma ManufacturerFields(id: Identity, d: seq<byte>, hash: seq<byte>)
    requires id.hash == if hash == [] then None else Some(hash)
    requires d == VendorFields(id)[1..] + id.deviceId + (NumberFields(id) + hash)
    ensures ParseManufacturer(d) == Some(id.(configuration := Narrow8(id.configuration)))
  {
    MiddleOf(VendorFields(id)[1..], id.deviceId, NumberFields(id) + hash);
    var rest := d[11..];
    assert rest == NumberFields(id) + hash;
    assert rest[..2] == Little16(id.category) && rest[2..4] == Little16(id.gsn) && rest[6..] == hash;
    assert d[11] == rest[0] && d[12] == rest[1] && d[13] == rest[2] && d[14] == rest[3];
    assert d[15] == rest[4] && d[16] == rest[5] && d[17..] == rest[6..];
  }

  lemma HeaderIsTwoStructures(id: Identity)
    ensures Header(id) == Encoded(AdStructure(0x01, [0x06])) + Encoded(AdStructure(0xFF, ManufacturerData(id)[1..]))
  {
  }

  /**
   For every capacity of at least 31 bytes the advertisement and the scan response fit, and parse
   into exactly the intended structures: the flags, the identity, and the name, complete or as the
   longest prefix that fits. A shortened name is given again in the scan response.
   */
  lemma RegularAdvertisementParses(id: Identity, name: Name, max: nat, maxScan: nat)
    requires max >= 31
    ensures |RegularAdvertisement(id, name, max)| <= max
    ensures |ScanResponse(id, name, max, maxScan)| <= maxScan
    ensures var room := max - (if id.hash.Some? then 28 else 24);
            && ParseStructures(RegularAdvertisement(id, name, max)) ==
               Some([AdStructure(0x01, [0x06])] + [AdStructure(0xFF, ManufacturerData(id)[1..])]
                    + [ShownName(name, room)])
            && ParseStructures(ScanResponse(id, name, max, maxScan)) ==
               Some(if |name| <= room || maxScan < 2 then [] else [ShownName(name, maxScan - 2)])
  {
    var room := max - |Header(id)| - 2;
    ParseName(name, room);
    HeaderIsTwoStructures(id);
    ParseTwo(AdStructure(0x01, [0x06]), AdStructure(0xFF, ManufacturerData(id)[1..]),
             NameField(name, room), [ShownName(name, room)]);
    if maxScan >= 2 {
      ParseName(name, maxScan - 2);
    }
  }

  /** The advertisement begins with the flags and the company, format and status of a HomeKit accessory. */
  lemma AdvertisementBegins(id: Identity)
    ensures Header(id)[..10] ==
            [0x02, 0x01, 0x06, if id.hash.Some? then 0x16 else 0x12, 0xFF, 0x4C, 0x00, 0x06,
             if id.hash.Some? then 0x31 else 0x2D, if id.paired then 0x00 else 0x01]
  {
  }

  /** Reads the identity out of an advertisement. */
  function ReadIdentity(b: seq<byte>): Option<Identity> {
    match ParseStructures(b)
    case None => None
    case Some(structures) =>
      if |structures| < 2 || structures[1].kind != 0xFF then None else ParseManufacturer(structures[1].data)
  }

  /**
   An advertisement tells the whole identity. Its configuration number has counted 1 to 255 over and over
   since the accessory was new, one for each increment of the stored number, without a skip.
   */
  lemma AdvertisementTellsIdentity(id: Identity, name: Name, max: nat, n: nat)
    requires max >= 31 && id.configuration == Narrow16(AfterIncrements(1, n))
    ensures ReadIdentity(RegularAdvertisement(id, name, max)) == Some(id.(configuration := n % 255 + 1))
  {
    RegularAdvertisementParses(id, name, max, 0);
    ManufacturerRoundTrip(id);
    NarrowedNumbersCount(n);
  }

  // ---- Encrypted notification ----

  type Tag = t: seq<byte> | |t| == 16 witness Zeros(16)

  /** Authenticated encryption: key, nonce, associated data and plaintext to ciphertext and tag. */
  type Aead = (Key, seq<byte>, seq<byte>, seq<byte>) -> (seq<byte>, Tag)

  ghost predicate KeepsLength(seal: Aead) {
    forall k, n, a, p :: |seal(k, n, a, p).0| == |p|
  }

  /** The advertisement of an emission: flags, then manufacturer data that ends with a truncated tag. */
  function EncryptedAdvertisement(e: Emission, seal: Aead): seq<byte> {
    var sealed := seal(e.key, Nonce(e), e.aad, Plaintext(e));
    FLAGS + [0x1B, 0xFF] + Little16(0x004C) + [0x11, 0x36] + e.aad + sealed.0 + sealed.1[..4]
  }

  /** The advertisement before encryption, up to the place of the tag. */
  method PutPlain(e: Emission, adv: array<byte>)
    requires adv.Length >= 31
    modifies adv
    ensures adv[..15] == FLAGS + [0x1B, 0xFF] + Little16(0x004C) + [0x11, 0x36] + e.aad
    ensures adv[15..27] == Plaintext(e)
  {
    var p := Put(adv, 0, [0x02, 0x01, 0x06]);
    p := Put(adv, p, [0x1B, 0xFF] + Little16(0x004C) + [0x11, 0x36]);
    p := Put(adv, p, e.aad);
    ghost var start := adv[..p];
    assert start == FLAGS + [0x1B, 0xFF] + Little16(0x004C) + [0x11, 0x36] + e.aad;
    p := Put(adv, p, Little16(e.gsn));
    p := Put(adv, p, Little16(e.iid));
    p := Put(adv, p, e.value);
    assert adv[..p] == start + Plaintext(e);
    assert adv[..15] == adv[..p][..15] && adv[15..27] == adv[..p][15..];
  }

  method WriteEncrypted(e: Emission, seal: Aead, adv: array<byte>) returns (numAdv: nat)
    requires adv.Length >= 31 && KeepsLength(seal)
    modifies adv
    ensures numAdv == 31
    ensures adv[..numAdv] == EncryptedAdvertisement(e, seal)
  {
    PutPlain(e, adv);

    // Encrypt in place.
    var sealed := seal(e.key, Nonce(e), e.aad, adv[15..27]);
    var p := Put(adv, 15, sealed.0);
    numAdv := Put(adv, p, sealed.1[..4]);
  }

  lemma EncryptedIsTwoStructures(e: Emission, seal: Aead, flags: AdStructure, data: AdStructure)
    requires KeepsLength(seal) && flags == AdStructure(0x01, [0x06])
    requires var sealed := seal(e.key, Nonce(e), e.aad, Plaintext(e));
             data == AdStructure(0xFF, Little16(0x004C) + [0x11, 0x36] + e.aad + sealed.0 + sealed.1[..4])
    ensures |data.data| == 26
    ensures Encoded(flags) + Encoded(data) + [] == EncryptedAdvertisement(e, seal)
  {
    var sealed := seal(e.key, Nonce(e), e.aad, Plaintext(e));
    assert |sealed.0| == |Plaintext(e)| == 12;
    var vendor := Little16(0x004C) + [0x11, 0x36];
    assert Encoded(flags) == FLAGS;
    assert [|data.data| + 1, data.kind] + data.data == [0x1B, 0xFF] + vendor + e.aad + sealed.0 + sealed.1[..4];
  }

  /** The encrypted format fills exactly 31 bytes and parses into flags and manufacturer data. */
  lemma EncryptedAdvertisementParses(e: Emission, seal: Aead)
    requires KeepsLength(seal)
    ensures |EncryptedAdvertisement(e, seal)| == 31
    ensures var sealed := seal(e.key, Nonce(e), e.aad, Plaintext(e));
            ParseStructures(EncryptedAdvertisement(e, seal)) ==
            Some([AdStructure(0x01, [0x06]),
                  AdStructure(0xFF, Little16(0x004C) + [0x11, 0x36] + e.aad + sealed.0 + sealed.1[..4])])
  {
    var sealed := seal(e.key, Nonce(e), e.aad, Plaintext(e));
    assert |sealed.0| == 12;
    var flags := AdStructure(0x01, [0x06]);
    var data := AdStructure(0xFF, Little16(0x004C) + [0x11, 0x36] + e.aad + sealed.0 + sealed.1[..4]);
    ParseTwo(flags, data, [], []);
    assert [flags] + [data] + [] == [flags, data];
    EncryptedIsTwoStructures(e, seal, flags, data);
  }

  // ---- Receiving a notification ----

  /** What a notification tells a controller that has the key. */
  datatype Notification = Notification(id: DeviceId, gsn: nat, iid: nat, value: seq<byte>)

  /** Authenticated decryption: key, nonce, associated data, ciphertext and truncated tag to plaintext. */
  type Open = (Key, seq<byte>, seq<byte>, seq<byte>, seq<byte>) -> Option<seq<byte>>

  ghost predicate Opens(open: Open, seal: Aead) {
    forall k, n, a, p :: open(k, n, a, seal(k, n, a, p).0, seal(k, n, a, p).1[..4]) == Some(p)
  }

  /** Receives a notification under a GSN, which is the nonce as a 64-bit number. */
  function Receive(key: Key, gsn: uint16, open: Open, b: seq<byte>): Option<Notification> {
    if |b| != 31 || b[..9] != [0x02, 0x01, 0x06, 0x1B, 0xFF, 0x4C, 0x00, 0x11, 0x36] then None
    else
      match open(key, [gsn % 0x100, gsn / 0x100, 0, 0, 0, 0, 0, 0], b[9..15], b[15..27], b[27..])
      case None => None
      case Some(p) =>
        if |p| != 12 then None
        else Some(Notification(b[9..15], LittleValue(p[..2]), LittleValue(p[2..4]), p[4..]))
  }

  lemma EncryptedParts(e: Emission, seal: Aead)
    requires KeepsLength(seal)
    ensures var b := EncryptedAdvertisement(e, seal);
            var sealed := seal(e.key, Nonce(e), e.aad, Plaintext(e));
            && |b| == 31 && b[..9] == [0x02, 0x01, 0x06, 0x1B, 0xFF, 0x4C, 0x00, 0x11, 0x36]
            && b[9..15] == e.aad && b[15..27] == sealed.0 && b[27..] == sealed.1[..4]
  {
    var sealed := seal(e.key, Nonce(e), e.aad, Plaintext(e));
    assert |sealed.0| == |Plaintext(e)| == 12;
    var start := FLAGS + [0x1B, 0xFF] + Little16(0x004C) + [0x11, 0x36];
    assert start == [0x02, 0x01, 0x06, 0x1B, 0xFF, 0x4C, 0x00, 0x11, 0x36];
    assert EncryptedAdvertisement(e, seal) == start + e.aad + sealed.0 + sealed.1[..4];
  }

  /** A controller with the key receives identifier, GSN, ID and value of every notification that is sent. */
  lemma NotificationIsReceived(e: Emission, seal: Aead, open: Open)
    requires KeepsLength(seal) && Opens(open, seal)
    ensures Receive(e.key, e.gsn, open, EncryptedAdvertisement(e, seal))
            == Some(Notification(e.aad, e.gsn, e.iid, e.value))
  {
    EncryptedParts(e, seal);
    var p := Plaintext(e);
    assert Nonce(e) == [e.gsn % 0x100, e.gsn / 0x100, 0, 0, 0, 0, 0, 0];
    assert p[..2] == Little16(e.gsn) && p[2..4] == Little16(e.iid) && p[4..] == e.value;
    LittleValueOf16(e.gsn);
    LittleValueOf16(e.iid);
  }
}
