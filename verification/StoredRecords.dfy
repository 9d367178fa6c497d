/**
 The two records that the Bluetooth LE transport keeps in the key-value store: the global state
 number (3 bytes) and the broadcast parameters (41 bytes). A shorter record is rejected; the store cuts
 a longer one to the size of the buffer that it is read into.
 */
module StoredRecords {
  import opened Bytes
  import opened Options

  /** Global state number and whether it advanced in the current connect / disconnect cycle. */
  datatype GsnState = GsnState(gsn: uint16, didIncrement: bool)

  type Key = k: seq<byte> | |k| == 32 witness Zeros(32)
  type DeviceId = d: seq<byte> | |d| == 6 witness Zeros(6)

  /** `keyExpirationGsn` is 0 when there is no key. */
  datatype BroadcastParameters = BroadcastParameters(
    keyExpirationGsn: uint16, key: Key, hasAdvertisingId: bool, advertisingId: DeviceId)

  const NO_PARAMETERS := BroadcastParameters(0, Zeros(32), false, Zeros(6))

  /** The stored global state number; 1 when there is no record, `None` when the record is corrupt. */
  function DecodeGsn(record: Option<seq<byte>>): (r: Option<GsnState>)
    ensures r.None? <==> record.Some? && |record.value| < 3
  {
    match record
    case None => Some(GsnState(1, false))
    case Some(b) => if |b| < 3 then None else Some(GsnState(ReadLittle16(b), b[2] % 2 == 1))
  }

  function EncodeGsn(g: GsnState): (b: seq<byte>)
    ensures DecodeGsn(Some(b)) == Some(g)
  {
    Little16(g.gsn) + [if g.didIncrement then 1 else 0]
  }

  /** The stored broadcast parameters; no key when there is no record, `None` when it is corrupt. */
  function DecodeParameters(record: Option<seq<byte>>): (r: Option<BroadcastParameters>)
    ensures r.None? <==> record.Some? && |record.value| < 41
  {
    match record
    case None => Some(NO_PARAMETERS)
    case Some(b) =>
      if |b| < 41 then None
      else Some(BroadcastParameters(ReadLittle16(b), b[2..34], b[34] % 2 == 1, b[35..41]))
  }

  function EncodeParameters(p: BroadcastParameters): (b: seq<byte>)
    ensures DecodeParameters(Some(b)) == Some(p)
  {
    var b := Little16(p.keyExpirationGsn) + p.key + [if p.hasAdvertisingId then 1 else 0] + p.advertisingId;
    assert b[2..34] == p.key && b[35..41] == p.advertisingId;
    b
  }

  /** The stored GSN: two bytes, the lower one first, and whether it has advanced. */
  lemma GsnRecord(g: GsnState)
    ensures var b := EncodeGsn(g);
            |b| == 3 && LittleValue(b[..2]) == g.gsn && b[2] == if g.didIncrement then 1 else 0
  {
    LittleValueOf16(g.gsn);
    assert EncodeGsn(g)[..2] == Little16(g.gsn);
  }

  /** The stored parameters: expiration GSN, key, whether there is an identifier, and the identifier. */
  lemma ParametersRecord(p: BroadcastParameters)
    ensures var b := EncodeParameters(p);
            && |b| == 41 && LittleValue(b[..2]) == p.keyExpirationGsn && b[2..34] == p.key
            && b[34] == (if p.hasAdvertisingId then 1 else 0) && b[35..] == p.advertisingId
  {
    LittleValueOf16(p.keyExpirationGsn);
    var b := EncodeParameters(p);
    assert b[..2] == Little16(p.keyExpirationGsn) && b[2..34] == p.key && b[35..41] == b[35..];
  }
}
