/**
 Firmware versions and the configuration number: what a start of the server makes of the version it
 is given, and how the stored 32-bit number is narrowed to the 16 and 8 bits that are advertised.
 */
module Firmware {
  import opened Arithmetic
  import opened Bytes
  import opened Options

  datatype Version = Version(major: uint32, minor: uint32, revision: uint32)

  // ---- Version strings ----

  predicate IsDigit(c: char) {
    '0' <= c <= '9'
  }

  predicate AllDigits(s: string) {
    forall i :: 0 <= i < |s| ==> IsDigit(s[i])
  }

  function Decimal(s: string): nat {
    if s == "" then 0
    else 10 * Decimal(s[..|s| - 1]) + if IsDigit(s[|s| - 1]) then s[|s| - 1] as int - '0' as int else 0
  }

  /** The parts of a string between its dots. */
  function Split(s: string): (ps: seq<string>)
    ensures |ps| >= 1
  {
    if s == "" then [""]
    else
      var ps := Split(s[..|s| - 1]);
      var n := |ps| - 1;
      if s[|s| - 1] == '.' then ps + [""] else ps[n := ps[n] + [s[|s| - 1]]]
  }

  function Join(ps: seq<string>): string
    requires |ps| >= 1
  {
    if |ps| == 1 then ps[0] else Join(ps[..|ps| - 1]) + "." + ps[|ps| - 1]
  }

  /** A decimal number of at most 32 bits, possibly with leading zeros. */
  predicate IsNumber(part: string) {
    part != "" && AllDigits(part) && Decimal(part) <= UINT32_MAX
  }

  /** One to three numbers separated by dots. */
  predicate IsVersion(s: string) {
    |Split(s)| <= 3 && forall k :: 0 <= k < |Split(s)| ==> IsNumber(Split(s)[k])
  }

  function NumberAt(ps: seq<string>, k: nat): nat {
    if k < |ps| then Decimal(ps[k]) else 0
  }

  /** Numbers that are not given are zero. */
  function VersionOf(s: string): Version
    requires IsVersion(s)
  {
    var ps := Split(s);
    Version(NumberAt(ps, 0), NumberAt(ps, 1), NumberAt(ps, 2))
  }

  /** Splitting is undone by joining, and no part contains a dot. */
  lemma {:induction false} JoinOfSplit(s: string)
    ensures Join(Split(s)) == s
    ensures forall k :: 0 <= k < |Split(s)| ==> '.' !in Split(s)[k]
  {
    if s != "" {
      var init, c := s[..|s| - 1], s[|s| - 1];
      var ps := Split(init);
      var n := |ps| - 1;
      JoinOfSplit(init);
      assert s == init + [c];
      if c == '.' {
        assert (ps + [""])[..|ps|] == ps;
      } else {
        var qs := ps[n := ps[n] + [c]];
        assert n > 0 ==> qs[..n] == ps[..n];
        assert n > 0 ==> Join(ps[..n]) + "." + (ps[n] + [c]) == Join(ps) + [c];
      }
    }
  }

  /** Reading on keeps the finished parts and extends the last one. */
  lemma {:induction false} SplitExtends(a: string, b: string)
    ensures var ps, qs := Split(a), Split(a + b);
            && |ps| <= |qs|
            && (forall k :: 0 <= k < |ps| - 1 ==> qs[k] == ps[k])
            && ps[|ps| - 1] <= qs[|ps| - 1]
            && (b != "" && b[0] == '.' ==> |qs| > |ps| && qs[|ps| - 1] == ps[|ps| - 1])
  {
    if b == "" {
      assert a + b == a;
    } else {
      SplitExtends(a, b[..|b| - 1]);
      assert (a + b)[..|a + b| - 1] == a + b[..|b| - 1];
      if |b| == 1 {
        assert a + b[..0] == a;
      }
    }
  }

  lemma {:induction false} DecimalExtends(a: string, b: string)
    requires a <= b
    ensures Decimal(a) <= Decimal(b)
  {
    if |a| == |b| {
      assert a == b;
    } else {
      assert a <= b[..|b| - 1];
      DecimalExtends(a, b[..|b| - 1]);
    }
  }

  /** A prefix whose last part is no number, and too large, too long or not of digits, spoils the whole. */
  lemma SpoiledPrefix(s: string, i: nat)
    requires i <= |s|
    requires var ps := Split(s[..i]);
             || |ps| > 3
             || Decimal(ps[|ps| - 1]) > UINT32_MAX
             || !AllDigits(ps[|ps| - 1])
             || (i < |s| && s[i] == '.' && ps[|ps| - 1] == "")
    ensures !IsVersion(s)
  {
    var ps, qs := Split(s[..i]), Split(s);
    var n := |ps| - 1;
    SplitExtends(s[..i], s[i..]);
    assert s[..i] + s[i..] == s;
    DecimalExtends(ps[n], qs[n]);
    assert forall k :: 0 <= k < |ps[n]| ==> ps[n][k] == qs[n][k];
    assert IsVersion(s) ==> IsNumber(qs[n]);
  }

  /** Appends a digit to a number; `None` when the result exceeds 32 bits. */
  method AppendDigit(n: uint32, digit: nat) returns (r: Option<uint32>)
    requires digit < 10
    ensures r == if 10 * n + digit <= UINT32_MAX then Some(10 * n + digit) else None
  {
    if n > UINT32_MAX / 10 { return None; }
    var scaled := n * 10;
    if scaled > UINT32_MAX - digit { return None; }
    return Some(scaled + digit);
  }

  /** What the parser knows after reading the parts `ps`, the last of which may be unfinished. */
  predicate ReadSoFar(ps: seq<string>, i: nat, first: bool, numbers: seq<nat>) {
    && i == |ps| - 1 && i <= 2 && |numbers| == 3
    && (first <==> ps[i] == "")
    && AllDigits(ps[i]) && Decimal(ps[i]) <= UINT32_MAX
    && (forall k :: 0 <= k < i ==> IsNumber(ps[k]))
    && (forall k :: 0 <= k < 3 ==> numbers[k] == NumberAt(ps, k))
  }

  lemma ReadDot(ps: seq<string>, i: nat, numbers: seq<nat>)
    requires ReadSoFar(ps, i, false, numbers) && i < 2
    ensures ReadSoFar(ps + [""], i + 1, true, numbers)
  {
    assert Decimal("") == 0;
  }

  lemma ReadDigit(ps: seq<string>, i: nat, first: bool, numbers: seq<nat>, c: char)
    requires ReadSoFar(ps, i, first, numbers) && IsDigit(c)
    ensures var n := 10 * numbers[i] + (c as int - '0' as int);
            && Decimal(ps[i] + [c]) == n
            && (n <= UINT32_MAX ==> ReadSoFar(ps[i := ps[i] + [c]], i, false, numbers[i := n]))
  {
    var part := ps[i] + [c];
    assert part[..|part| - 1] == ps[i];
  }

  /** What the parser does with a character. */
  datatype Reading = Malformed | ReadUpTo(i: nat, first: bool, numbers: seq<uint32>)

  /** What is known after the first `c` characters; a malformed prefix spoils the whole. */
  predicate IsReading(version: string, c: nat, r: Reading)
    requires c <= |version|
  {
    match r
    case Malformed => !IsVersion(version)
    case ReadUpTo(i, first, numbers) => ReadSoFar(Split(version[..c]), i, first, numbers)
  }

  /** Advances to the next number. */
  method ReadSeparator(version: string, c: nat, i: nat, numbers: seq<uint32>) returns (r: Reading)
    requires c < |version| && version[c] == '.' && ReadSoFar(Split(version[..c]), i, false, numbers)
    ensures IsReading(version, c + 1, r)
  {
    ReadOn(version, c);
    if i >= 2 {
      SpoiledPrefix(version, c + 1);
      return Malformed;
    }
    ReadDot(Split(version[..c]), i, numbers);
    return ReadUpTo(i + 1, true, numbers);
  }

  /** The number that a digit makes of the current one. */
  function WithDigit(numbers: seq<nat>, i: nat, c: char): nat
    requires i < |numbers| && IsDigit(c)
  {
    10 * numbers[i] + (c as int - '0' as int)
  }

  lemma NumberFits(version: string, c: nat, i: nat, first: bool, numbers: seq<nat>)
    requires c < |version| && IsDigit(version[c]) && ReadSoFar(Split(version[..c]), i, first, numbers)
    requires WithDigit(numbers, i, version[c]) <= UINT32_MAX
    ensures ReadSoFar(Split(version[..c + 1]), i, false, numbers[i := WithDigit(numbers, i, version[c])])
  {
    ReadOn(version, c);
    ReadDigit(Split(version[..c]), i, first, numbers, version[c]);
  }

  lemma NumberTooLarge(version: string, c: nat, i: nat, first: bool, numbers: seq<nat>)
    requires c < |version| && IsDigit(version[c]) && ReadSoFar(Split(version[..c]), i, first, numbers)
    requires WithDigit(numbers, i, version[c]) > UINT32_MAX
    ensures !IsVersion(version)
  {
    ReadOn(version, c);
    ReadDigit(Split(version[..c]), i, first, numbers, version[c]);
    var ps := Split(version[..c + 1]);
    assert Decimal(ps[|ps| - 1]) == WithDigit(numbers, i, version[c]);
    SpoiledPrefix(version, c + 1);
  }

  /** Adds a digit to the current number. */
  method ReadNumber(version: string, c: nat, i: nat, first: bool, numbers: seq<uint32>) returns (r: Reading)
    requires c < |version| && IsDigit(version[c]) && ReadSoFar(Split(version[..c]), i, first, numbers)
    ensures IsReading(version, c + 1, r)
  {
    var n := AppendDigit(numbers[i], version[c] as int - '0' as int);
    if n.None? {
      NumberTooLarge(version, c, i, first, numbers);
      return Malformed;
    }
    NumberFits(version, c, i, first, numbers);
    return ReadUpTo(i, false, numbers[i := n.value]);
  }

  method ReadCharacter(version: string, c: nat, i: nat, first: bool, numbers: seq<uint32>) returns (r: Reading)
    requires c < |version| && ReadSoFar(Split(version[..c]), i, first, numbers)
    ensures IsReading(version, c + 1, r)
  {
    if !first && version[c] == '.' {
      r := ReadSeparator(version, c, i, numbers);
    } else if !IsDigit(version[c]) {
      NonDigitSpoils(version, c);
      r := Malformed;
    } else {
      r := ReadNumber(version, c, i, first, numbers);
    }
  }

  /** Parses a version, character by character. It accepts exactly the version strings. */
  method ParseVersionString(version: string) returns (r: Option<Version>)
    ensures r == if IsVersion(version) then Some(VersionOf(version)) else None
  {
    var numbers: seq<uint32> := [0, 0, 0];
    var i := 0;
    var first := true;
    for c := 0 to |version|
      invariant IsReading(version, c, ReadUpTo(i, first, numbers))
    {
      var next := ReadCharacter(version, c, i, first, numbers);
      if next.Malformed? { return None; }
      i, first, numbers := next.i, next.first, next.numbers;
    }
    assert version[..|version|] == version;
    EndOfVersion(version, i, first, numbers);
    return if first then None else Some(Version(numbers[0], numbers[1], numbers[2]));
  }

  lemma ReadOn(s: string, c: nat)
    requires c < |s|
    ensures var ps := Split(s[..c]);
            Split(s[..c + 1]) == if s[c] == '.' then ps + [""] else ps[|ps| - 1 := ps[|ps| - 1] + [s[c]]]
  {
    assert s[..c + 1][..c] == s[..c];
  }

  lemma EndOfVersion(s: string, i: nat, first: bool, numbers: seq<uint32>)
    requires ReadSoFar(Split(s), i, first, numbers)
    ensures IsVersion(s) <==> !first
    ensures !first ==> VersionOf(s) == Version(numbers[0], numbers[1], numbers[2])
  {
  }

  /** A character that is no digit spoils the version, be it a dot where a part is still empty. */
  lemma NonDigitSpoils(s: string, c: nat)
    requires c < |s| && !IsDigit(s[c])
    requires var ps := Split(s[..c]); s[c] == '.' ==> ps[|ps| - 1] == ""
    ensures !IsVersion(s)
  {
    var ps, qs := Split(s[..c]), Split(s[..c + 1]);
    ReadOn(s, c);
    if s[c] == '.' {
      SpoiledPrefix(s, c);
    } else {
      var n := |ps| - 1;
      assert qs[n][|ps[n]|] == s[c];
      SpoiledPrefix(s, c + 1);
    }
  }

  // ---- Versions as strings ----

  /** A number in decimal digits. */
  function ToDigits(n: nat): (s: string) {
    var digit := ['0' + (n % 10) as char];
    if n < 10 then digit else ToDigits(n / 10) + digit
  }

  function ToText(v: Version): string {
    ToDigits(v.major) + "." + ToDigits(v.minor) + "." + ToDigits(v.revision)
  }

  /** The digits of a number stand for it. */
  lemma {:induction false} DecimalOfDigits(n: nat)
    ensures ToDigits(n) != "" && AllDigits(ToDigits(n)) && Decimal(ToDigits(n)) == n
  {
    var s := ToDigits(n);
    if n < 10 {
      assert s[..0] == "" && Decimal("") == 0;
    } else {
      DecimalOfDigits(n / 10);
      assert s[..|s| - 1] == ToDigits(n / 10);
    }
  }

  /** Digits extend the last part. */
  lemma {:induction false} SplitDigits(a: string, ds: string)
    requires AllDigits(ds)
    ensures var ps := Split(a);
            Split(a + ds) == ps[|ps| - 1 := ps[|ps| - 1] + ds]
  {
    if ds == "" {
      var ps := Split(a);
      assert a + ds == a && ps[|ps| - 1] + ds == ps[|ps| - 1];
    } else {
      var init := ds[..|ds| - 1];
      var n := |Split(a)| - 1;
      SplitDigits(a, init);
      assert (a + ds)[..|a + ds| - 1] == a + init;
      assert Split(a + init)[n] == Split(a)[n] + init && ds == init + [ds[|ds| - 1]];
      assert Split(a)[n] + init + [ds[|ds| - 1]] == Split(a)[n] + ds;
    }
  }

  lemma SplitDot(a: string)
    ensures Split(a + ".") == Split(a) + [""]
  {
    assert (a + ".")[..|a|] == a;
  }

  /** Up to three parts of digits are read as they were joined. */
  lemma SplitOfDigits(a: string, b: string, c: string)
    requires AllDigits(a) && AllDigits(b) && AllDigits(c)
    ensures Split(a) == [a]
    ensures Split(a + "." + b) == [a, b]
    ensures Split(a + "." + b + "." + c) == [a, b, c]
  {
    SplitDigits("", a);
    assert "" + a == a;
    SplitDot(a);
    SplitDigits(a + ".", b);
    assert "" + b == b && [a] + [""] == [a, ""];
    SplitDot(a + "." + b);
    SplitDigits(a + "." + b + ".", c);
    assert "" + c == c && [a, b] + [""] == [a, b, ""];
  }

  /** Every version can be written as a string from which it is read back; minor and revision may be left out. */
  lemma VersionOfText(v: Version)
    ensures IsVersion(ToText(v)) && VersionOf(ToText(v)) == v
    ensures var s := ToDigits(v.major) + "." + ToDigits(v.minor);
            IsVersion(s) && VersionOf(s) == v.(revision := 0)
    ensures IsVersion(ToDigits(v.major)) && VersionOf(ToDigits(v.major)) == Version(v.major, 0, 0)
  {
    DecimalOfDigits(v.major);
    DecimalOfDigits(v.minor);
    DecimalOfDigits(v.revision);
    SplitOfDigits(ToDigits(v.major), ToDigits(v.minor), ToDigits(v.revision));
  }

  // ---- Configuration number ----

  function NextConfiguration(cn: uint32): uint32 {
    if cn == UINT32_MAX then 1 else cn + 1
  }

  /** The number as it is published over IP. */
  function Narrow16(cn: uint32): (r: uint16)
    ensures 1 <= r
  {
    (cn - 1) % 0x1_0000_0000 % UINT16_MAX + 1
  }

  /** The number as it is advertised over Bluetooth LE. */
  function Narrow8(cn: uint16): (r: byte)
    ensures cn >= 1 ==> 1 <= r
  {
    // The remainder of -1 is -1 in C, so 0 would give 0; it is never stored.
    if cn == 0 then 0 else (cn - 1) % UINT8_MAX + 1
  }

  function AfterIncrements(cn: uint32, n: nat): uint32 {
    if n == 0 then cn else NextConfiguration(AfterIncrements(cn, n - 1))
  }

  lemma NextRemainder(n: nat, m: nat)
    requires m > 1
    ensures (n + 1) % m == if n % m == m - 1 then 0 else n % m + 1
  {
    var q, r := n / m, n % m;
    assert n == m * q + r;
    if r == m - 1 {
      assert n + 1 == m * (q + 1);
      QuotientAndRemainder(n + 1, m, q + 1, 0);
    } else {
      QuotientAndRemainder(n + 1, m, q, r + 1);
    }
  }

  lemma {:induction false} IncrementsCount(n: nat)
    ensures AfterIncrements(1, n) == n % UINT32_MAX + 1
  {
    if n > 0 {
      IncrementsCount(n - 1);
      NextRemainder(n - 1, UINT32_MAX);
    }
  }

  /** 65535 divides 2^32 - 1, so reducing by the latter first makes no difference. */
  lemma Divides65535(n: nat)
    ensures n % UINT32_MAX % 65535 == n % 65535
  {
    var q, r := n / UINT32_MAX, n % UINT32_MAX;
    assert n == 65535 * (65537 * q + r / 65535) + r % 65535;
    QuotientAndRemainder(n, 65535, 65537 * q + r / 65535, r % 65535);
  }

  lemma Divides255(n: nat)
    ensures n % 65535 % 255 == n % 255
  {
    var q, r := n / 65535, n % 65535;
    assert n == 255 * (257 * q + r / 255) + r % 255;
    QuotientAndRemainder(n, 255, 257 * q + r / 255, r % 255);
  }

  /**
   After any number of increments of a new accessory, overflow of the 32-bit number included, the
   16-bit number has counted 1 to 65535 over and over and the 8-bit number 1 to 255, without a skip:
   65535 divides 2^32 - 1, and 255 divides 65535.
   */
  lemma NarrowedNumbersCount(n: nat)
    ensures Narrow16(AfterIncrements(1, n)) == n % 65535 + 1
    ensures Narrow8(Narrow16(AfterIncrements(1, n))) == n % 255 + 1
  {
    IncrementsCount(n);
    Narrow16Of(n % UINT32_MAX);
    Divides65535(n);
    Narrow8Of(n % 65535);
    Divides255(n);
  }

  lemma Narrow16Of(r: nat)
    requires r < UINT32_MAX
    ensures Narrow16(r + 1) == r % 65535 + 1
  {
  }

  lemma Narrow8Of(r: nat)
    requires r < 65535
    ensures Narrow8(r + 1) == r % 255 + 1
  {
  }

  // ---- Start of the server ----

  /** Versions are ordered by major, minor and revision number. */
  predicate Less(v: Version, w: Version) {
    v.major < w.major ||
    (v.major == w.major && (v.minor < w.minor || (v.minor == w.minor && v.revision < w.revision)))
  }

  predicate AtMost(v: Version, w: Version) {
    v == w || Less(v, w)
  }

  function Little32(n: uint32): (b: seq<byte>)
    ensures |b| == 4 && ReadLittle32(b) == n
  {
    Little16(n % 0x1_0000) + Little16(n / 0x1_0000)
  }

  function ReadLittle32(b: seq<byte>): uint32
    requires |b| >= 4
  {
    (ReadLittle16(b) as int) + 0x1_0000 * (ReadLittle16(b[2..]) as int)
  }

  function EncodeVersion(v: Version): (b: seq<byte>)
    ensures |b| == 12 && DecodeVersion(b) == v
  {
    var b := Little32(v.major) + Little32(v.minor) + Little32(v.revision);
    assert b[0..4] == Little32(v.major) && b[4..8] == Little32(v.minor) && b[8..12] == Little32(v.revision);
    b
  }

  function DecodeVersion(b: seq<byte>): Version
    requires |b| >= 12
  {
    Version(ReadLittle32(b[0..4]), ReadLittle32(b[4..8]), ReadLittle32(b[8..12]))
  }

  lemma LittleValueOf32(b: seq<byte>)
    requires |b| == 4
    ensures LittleValue(b) == ReadLittle32(b)
  {
    assert b[1..][1..] == b[2..] && b[2..][1..] == b[3..] && b[3..][1..] == [];
    assert LittleValue(b[3..]) == b[3];
    assert LittleValue(b[2..]) == (b[2] as int) + 0x100 * LittleValue(b[3..]);
    assert LittleValue(b[1..]) == (b[1] as int) + 0x100 * LittleValue(b[2..]);
  }

  /** The stored version: major, minor and revision number with four bytes each, the lowest byte first. */
  lemma VersionRecord(v: Version)
    ensures var b := EncodeVersion(v);
            && LittleValue(b[0..4]) == v.major && LittleValue(b[4..8]) == v.minor
            && LittleValue(b[8..12]) == v.revision
  {
    var b := EncodeVersion(v);
    LittleValueOf32(b[0..4]);
    LittleValueOf32(b[4..8]);
    LittleValueOf32(b[8..12]);
  }

  /** A buffer of four bytes that a record is read into. */
  type Buffer = b: seq<byte> | |b| == 4 witness Zeros(4)

  /** The buffer after a record has been read into it. */
  function Overwritten(buffer: Buffer, record: seq<byte>): (r: Buffer)
    ensures forall k :: 0 <= k < 4 ==> r[k] == if k < |record| then record[k] else buffer[k]
  {
    if |record| >= 4 then record[..4] else record + buffer[|record|..]
  }

  /** Stored version, if any, and configuration number. */
  datatype Stored = Stored(version: Option<Version>, cn: uint32)

  /** What a start makes of its version: it runs unless the firmware was downgraded. */
  function AfterStart(s: Stored, v: Version): (bool, Stored) {
    if s.version.None? then (true, s.(version := Some(v)))
    else if Less(v, s.version.value) then (false, s)
    else if v == s.version.value then (true, s)
    else (true, Stored(Some(v), NextConfiguration(s.cn)))
  }

  /** The given version is smaller than the stored one. */
  predicate IsDowngrade(stored: Option<Version>, v: Version) {
    stored.Some? &&
    (|| v.major < stored.value.major
     || (v.major == stored.value.major && v.minor < stored.value.minor)
     || (v.major == stored.value.major && v.minor == stored.value.minor && v.revision < stored.value.revision))
  }

  /**
   A start is refused, and changes nothing, exactly when the firmware was downgraded. Any other start stores
   the version; the configuration number goes on when a version was stored and differs.
   */
  lemma RefusedExactlyWhenDowngraded(s: Stored, v: Version)
    ensures var (runs, t) := AfterStart(s, v);
            && (runs <==> !IsDowngrade(s.version, v))
            && (!runs ==> t == s)
            && (runs ==> t.version == Some(v))
            && (runs ==> t.cn == if s.version.None? || s.version.value == v then s.cn else s.cn % UINT32_MAX + 1)
  {
  }

  datatype Comparison = Unreadable | Initial | Same | Older | Newer

  function Compared(stored: Option<Version>, v: Version): Comparison {
    if stored.None? then Initial
    else if v == stored.value then Same
    else if Less(v, stored.value) then Older
    else Newer
  }

  datatype StartResult = Started | NotStarted | FatalError

  class Bookkeeping {
    var versionRecord: Option<seq<byte>>
    var cnRecord: Option<seq<byte>>

    ghost predicate Valid()
      reads this
    {
      && (versionRecord.Some? ==> |versionRecord.value| >= 12)
      && (cnRecord.Some? ==> |cnRecord.value| >= 4)
    }

    ghost function View(): Stored
      requires Valid()
      reads this
    {
      Stored(if versionRecord.None? then None else Some(DecodeVersion(versionRecord.value)), Configuration())
    }

    ghost function Configuration(): uint32
      requires Valid()
      reads this
    {
      if cnRecord.None? then 1 else ReadLittle32(cnRecord.value)
    }

    constructor ()
      ensures Valid() && View() == Stored(None, 1)
    {
      versionRecord, cnRecord := None, None;
    }

    /** The 16-bit configuration number; `None` when the record is corrupt. */
    method GetCn() returns (cn: Option<uint16>)
      modifies this`cnRecord
      ensures old(cnRecord).Some? && |old(cnRecord).value| < 4 ==> cn.None? && cnRecord == old(cnRecord)
      ensures old(Valid()) ==> Valid() && View() == old(View()) && cn == Some(Narrow16(Configuration()))
    {
      if cnRecord.None? {
        cnRecord := Some(Little32(1));
      } else if |cnRecord.value| < 4 {
        return None;
      }
      return Some(Narrow16(ReadLittle32(cnRecord.value)));
    }

    /**
     The next number. The length of the record is not checked: bytes that it lacks are those that happened
     to be in the buffer.
     */
    method IncrementCn(buffer: Buffer)
      modifies this`cnRecord
      ensures old(Valid()) ==> Valid() && View() == old(View()).(cn := NextConfiguration(old(Configuration())))
      ensures cnRecord ==
              Some(Little32(NextConfiguration(
                     if old(cnRecord).None? then 1 else ReadLittle32(Overwritten(buffer, old(cnRecord).value)))))
    {
      var cn := if cnRecord.None? then 1 else ReadLittle32(Overwritten(buffer, cnRecord.value));
      if Valid() && cnRecord.Some? {
        assert Overwritten(buffer, cnRecord.value) == cnRecord.value[..4];
      }
      if cn == UINT32_MAX {
        cn := 1;
      } else {
        cn := cn + 1;
      }
      cnRecord := Some(Little32(cn));
    }

    /** How a version compares with the stored one. */
    method CompareVersion(v: Version) returns (c: Comparison)
      ensures c == Unreadable <==> versionRecord.Some? && |versionRecord.value| < 12
      ensures Valid() ==> c == Compared(View().version, v)
    {
      if versionRecord.None? { return Initial; }
      if |versionRecord.value| < 12 { return Unreadable; }
      var previous := DecodeVersion(versionRecord.value);
      if v.major != previous.major || v.minor != previous.minor || v.revision != previous.revision {
        if v.major < previous.major || (v.major == previous.major && v.minor < previous.minor) ||
           (v.major == previous.major && v.minor == previous.minor && v.revision < previous.revision) {
          return Older;
        }
        return Newer;
      }
      return Same;
    }

    /** The firmware check at the start of the server. */
    method CheckFirmware(firmwareVersion: string, buffer: Buffer) returns (r: StartResult)
      modifies this
      ensures r == FatalError <==>
              !IsVersion(firmwareVersion) || (old(versionRecord).Some? && |old(versionRecord).value| < 12)
      ensures r != FatalError && old(Valid()) ==>
                && Valid()
                && View() == AfterStart(old(View()), VersionOf(firmwareVersion)).1
                && (r == Started <==> AfterStart(old(View()), VersionOf(firmwareVersion)).0)
                && (r == NotStarted <==> IsDowngrade(old(View()).version, VersionOf(firmwareVersion)))
                && (r == NotStarted ==> unchanged(this))
    {
      var parsed := ParseVersionString(firmwareVersion);
      if parsed.None? { return FatalError; }
      var c := CompareVersion(parsed.value);
      if Valid() { RefusedExactlyWhenDowngraded(View(), parsed.value); }
      match c {
        case Unreadable => return FatalError;
        case Older => return NotStarted;
        case Same => return Started;
        case Newer => IncrementCn(buffer);
        case Initial =>
      }
      versionRecord := Some(EncodeVersion(parsed.value));
      return Started;
    }

    /** The check when the power is lost before the version is written. */
    method CheckFirmwareUntilCut(firmwareVersion: string, buffer: Buffer)
      modifies this
      ensures old(Valid()) && IsVersion(firmwareVersion) ==>
                Valid() && View() == AfterAttempt(old(View()), CutOff(VersionOf(firmwareVersion)))
    {
      var parsed := ParseVersionString(firmwareVersion);
      if parsed.None? { return; }
      var c := CompareVersion(parsed.value);
      if c == Newer {
        IncrementCn(buffer);
      }
    }
  }

  // ---- Sequences of starts ----

  /** A start that was completed, or one that lost power before it wrote its version. */
  datatype Attempt = Completed(version: Version) | CutOff(version: Version)

  /** The start finds a strictly newer version than the stored one. */
  predicate IsUpdate(s: Stored, v: Version) {
    s.version.Some? && Less(s.version.value, v)
  }

  function AfterAttempt(s: Stored, a: Attempt): Stored {
    match a
    case Completed(v) => AfterStart(s, v).1
    case CutOff(v) => if IsUpdate(s, v) then s.(cn := NextConfiguration(s.cn)) else s
  }

  function AfterAttempts(s: Stored, attempts: seq<Attempt>): Stored
    decreases |attempts|
  {
    if attempts == [] then s else AfterAttempts(AfterAttempt(s, attempts[0]), attempts[1..])
  }

  /** How many attempts are updates and were completed. */
  function Updates(s: Stored, attempts: seq<Attempt>): nat
    decreases |attempts|
  {
    if attempts == [] then 0
    else
      (if attempts[0].Completed? && IsUpdate(s, attempts[0].version) then 1 else 0)
      + Updates(AfterAttempt(s, attempts[0]), attempts[1..])
  }

  /** How many attempts are updates and were cut off. */
  function Cuts(s: Stored, attempts: seq<Attempt>): nat
    decreases |attempts|
  {
    if attempts == [] then 0
    else
      (if attempts[0].CutOff? && IsUpdate(s, attempts[0].version) then 1 else 0)
      + Cuts(AfterAttempt(s, attempts[0]), attempts[1..])
  }

  lemma {:induction false} IncrementsAdd(cn: uint32, m: nat, n: nat)
    ensures AfterIncrements(AfterIncrements(cn, m), n) == AfterIncrements(cn, m + n)
  {
    if n > 0 {
      IncrementsAdd(cn, m, n - 1);
    }
  }

  lemma NextIsOneIncrement(cn: uint32)
    ensures AfterIncrements(cn, 0) == cn && AfterIncrements(cn, 1) == NextConfiguration(cn)
  {
    assert AfterIncrements(cn, 1) == NextConfiguration(AfterIncrements(cn, 0));
  }

  /** The configuration number is incremented exactly once for each update and for each update that was cut off. */
  lemma {:induction false} ConfigurationCountsUpdates(s: Stored, attempts: seq<Attempt>)
    ensures AfterAttempts(s, attempts).cn == AfterIncrements(s.cn, Updates(s, attempts) + Cuts(s, attempts))
    decreases |attempts|
  {
    if attempts != [] {
      var next := AfterAttempt(s, attempts[0]);
      ConfigurationCountsUpdates(next, attempts[1..]);
      NextIsOneIncrement(s.cn);
      IncrementsAdd(s.cn, if IsUpdate(s, attempts[0].version) then 1 else 0,
                    Updates(next, attempts[1..]) + Cuts(next, attempts[1..]));
    }
  }

  /** Over any sequence of attempts the stored version only grows, and ends as the newest that was completed. */
  lemma {:induction false} StoredVersionGrows(s: Stored, attempts: seq<Attempt>)
    ensures var t := AfterAttempts(s, attempts);
            && (s.version.Some? ==> t.version.Some? && AtMost(s.version.value, t.version.value))
            && (forall v :: Completed(v) in attempts ==> t.version.Some? && AtMost(v, t.version.value))
            && (t.version.Some? ==> t.version == s.version || Completed(t.version.value) in attempts)
    decreases |attempts|
  {
    if attempts != [] {
      StoredVersionGrows(AfterAttempt(s, attempts[0]), attempts[1..]);
      assert forall a :: a in attempts <==> a == attempts[0] || a in attempts[1..];
    }
  }
}
