/**
 Setup codes and setup payloads. The payload packs the category, the flags and the setup code into
 one number and writes it with nine base-36 digits, dividing by 36 with shifts only.
 */
module SetupPayload {
  import opened Arithmetic
  import opened Options

  // ---- Setup codes ----

  predicate IsDigit(c: char) {
    '0' <= c <= '9'
  }

  /** A character that is right for its place. */
  predicate FitsAt(c: char, k: nat) {
    if k == 3 || k == 6 then c == '-' else IsDigit(c)
  }

  /** Three digits, two digits and three digits, with dashes in between. */
  predicate HasCodeFormat(s: string) {
    |s| == 10 && forall i :: 0 <= i < 10 ==> FitsAt(s[i], i)
  }

  function Repeated(c: char): string {
    [c, c, c, '-', c, c, '-', c, c, c]
  }

  /** One digit eight times, or the digits 1 to 8 up or down. */
  predicate IsTrivial(s: string) {
    |s| == 10 && (s == Repeated(s[0]) || s == "123-45-678" || s == "876-54-321")
  }

  predicate IsSetupCode(s: string) {
    HasCodeFormat(s) && !IsTrivial(s)
  }

  /** The digits of a code among its first `n` characters. */
  function Digits(s: string, n: nat): string
    requires n <= |s|
  {
    if n == 0 then [] else Digits(s, n - 1) + if n - 1 == 3 || n - 1 == 6 then [] else [s[n - 1]]
  }

  lemma DigitsOfCode(s: string)
    requires |s| == 10
    ensures Digits(s, 10) == [s[0], s[1], s[2], s[4], s[5], s[7], s[8], s[9]]
  {
    assert Digits(s, 0) == [];
    assert Digits(s, 1) == [s[0]];
    assert Digits(s, 2) == [s[0], s[1]];
    assert Digits(s, 3) == [s[0], s[1], s[2]];
    assert Digits(s, 4) == [s[0], s[1], s[2]];
    assert Digits(s, 5) == [s[0], s[1], s[2], s[4]];
    assert Digits(s, 6) == [s[0], s[1], s[2], s[4], s[5]];
    assert Digits(s, 7) == [s[0], s[1], s[2], s[4], s[5]];
    assert Digits(s, 8) == [s[0], s[1], s[2], s[4], s[5], s[7]];
    assert Digits(s, 9) == [s[0], s[1], s[2], s[4], s[5], s[7], s[8]];
  }

  /** Each digit differs from the one before it by `step`. */
  predicate Runs(ds: string, step: int) {
    forall k :: 0 < k < |ds| ==> ds[k] as int == ds[k - 1] as int + step
  }

  lemma RunIsDetermined(ds: string, step: int)
    requires |ds| == 8 && Runs(ds, step)
    ensures ds[1] as int == ds[0] as int + step
    ensures ds[2] as int == ds[0] as int + 2 * step
    ensures ds[3] as int == ds[0] as int + 3 * step
    ensures ds[4] as int == ds[0] as int + 4 * step
    ensures ds[5] as int == ds[0] as int + 5 * step
    ensures ds[6] as int == ds[0] as int + 6 * step
    ensures ds[7] as int == ds[0] as int + 7 * step
  {
  }

  lemma RunsAreTrivial(s: string, step: int)
    requires HasCodeFormat(s) && Runs([s[0], s[1], s[2], s[4], s[5], s[7], s[8], s[9]], step)
    requires step == 0 || (step == 1 && s[0] == '1') || (step == -1 && s[0] == '8')
    ensures IsTrivial(s)
  {
    RunIsDetermined([s[0], s[1], s[2], s[4], s[5], s[7], s[8], s[9]], step);
    if step == 0 {
      assert s == Repeated(s[0]);
    } else if step == 1 {
      assert s == "123-45-678";
    } else {
      assert s == "876-54-321";
    }
  }

  lemma TrivialIsRun(s: string)
    requires IsTrivial(s)
    ensures var ds := [s[0], s[1], s[2], s[4], s[5], s[7], s[8], s[9]];
            Runs(ds, 0) || (s[0] == '1' && Runs(ds, 1)) || (s[0] == '8' && Runs(ds, -1))
  {
  }

  lemma TrivialCodesAreRuns(s: string)
    requires HasCodeFormat(s)
    ensures IsTrivial(s) <==>
            var ds := Digits(s, 10);
            Runs(ds, 0) || (s[0] == '1' && Runs(ds, 1)) || (s[0] == '8' && Runs(ds, -1))
  {
    DigitsOfCode(s);
    if IsTrivial(s) {
      TrivialIsRun(s);
    } else if Runs(Digits(s, 10), 0) {
      RunsAreTrivial(s, 0);
    } else if s[0] == '1' && Runs(Digits(s, 10), 1) {
      RunsAreTrivial(s, 1);
    } else if s[0] == '8' && Runs(Digits(s, 10), -1) {
      RunsAreTrivial(s, -1);
    }
  }

  /** The count reaches its maximum exactly for a run. */
  predicate CountsRun(ds: string, step: int, count: nat) {
    |ds| >= 1 && count <= |ds| - 1 && (count == |ds| - 1 <==> Runs(ds, step))
  }

  lemma CountNext(ds: string, step: int, count: nat, c: char)
    requires CountsRun(ds, step, count)
    ensures CountsRun(ds + [c], step, count + if c as int == ds[|ds| - 1] as int + step then 1 else 0)
  {
    var es := ds + [c];
    assert Runs(es, step) ==> Runs(ds, step) by {
      assert forall k :: 0 <= k < |ds| ==> es[k] == ds[k];
    }
    assert es[|ds|] == c && es[|ds| - 1] == ds[|ds| - 1];
  }

  /** The three counts of the loop, over the digits so far, of which the last is `previous`. */
  predicate Counted(ds: string, previous: int, equal: nat, ascending: nat, descending: nat) {
    if ds == [] then previous == equal == ascending == descending == 0
    else
      && previous == ds[|ds| - 1] as int
      && CountsRun(ds, 0, equal) && CountsRun(ds, 1, ascending) && CountsRun(ds, -1, descending)
  }

  lemma CountedNext(ds: string, previous: int, equal: nat, ascending: nat, descending: nat, c: char)
    requires Counted(ds, previous, equal, ascending, descending) && IsDigit(c)
    ensures Counted(ds + [c], c as int,
                    equal + (if c as int == previous then 1 else 0),
                    ascending + (if c as int == previous + 1 then 1 else 0),
                    descending + (if c as int == previous - 1 then 1 else 0))
  {
    if ds != [] {
      CountNext(ds, 0, equal, c);
      CountNext(ds, 1, ascending, c);
      CountNext(ds, -1, descending, c);
    }
  }

  /** The counts of a well-formed code tell whether it is trivial. */
  lemma Verdict(s: string, previous: int, equal: nat, ascending: nat, descending: nat)
    requires HasCodeFormat(s) && Counted(Digits(s, 10), previous, equal, ascending, descending)
    ensures IsTrivial(s) <==> equal == 7 || (s[0] == '1' && ascending == 7) || (s[0] == '8' && descending == 7)
  {
    DigitsOfCode(s);
    TrivialCodesAreRuns(s);
  }

  /** What the loop knows after `i` characters. */
  predicate Scanned(s: string, i: nat, previous: int, equal: nat, ascending: nat, descending: nat)
    requires i <= |s|
  {
    (forall k :: 0 <= k < i ==> FitsAt(s[k], k)) && Counted(Digits(s, i), previous, equal, ascending, descending)
  }

  lemma ScanSeparator(s: string, i: nat, previous: int, equal: nat, ascending: nat, descending: nat)
    requires i < |s| && (i == 3 || i == 6) && s[i] == '-' && Scanned(s, i, previous, equal, ascending, descending)
    ensures Scanned(s, i + 1, previous, equal, ascending, descending)
  {
    assert Digits(s, i + 1) == Digits(s, i);
  }

  lemma ScanDigit(s: string, i: nat, previous: int, equal: nat, ascending: nat, descending: nat)
    requires i < |s| && i != 3 && i != 6 && IsDigit(s[i]) && Scanned(s, i, previous, equal, ascending, descending)
    ensures var c := s[i] as int;
            Scanned(s, i + 1, c,
                    equal + (if c == previous then 1 else 0),
                    ascending + (if c == previous + 1 then 1 else 0),
                    descending + (if c == previous - 1 then 1 else 0))
  {
    CountedNext(Digits(s, i), previous, equal, ascending, descending, s[i]);
  }

  lemma ScannedAll(s: string, previous: int, equal: nat, ascending: nat, descending: nat)
    requires |s| == 10 && Scanned(s, 10, previous, equal, ascending, descending)
    ensures IsSetupCode(s) <==> equal != 7 && (s[0] != '1' || ascending != 7) && (s[0] != '8' || descending != 7)
  {
    assert forall k :: 0 <= k < 10 ==> FitsAt(s[k], k);
    assert HasCodeFormat(s);
    Verdict(s, previous, equal, ascending, descending);
  }

  lemma Misfit(s: string, i: nat)
    requires i < |s| && !FitsAt(s[i], i)
    ensures !IsSetupCode(s)
  {
  }

  /** Accepts exactly the well-formed codes that are not trivial. */
  method IsValidSetupCode(s: string) returns (r: bool)
    ensures r <==> IsSetupCode(s)
  {
    if |s| != 10 { return false; }
    var numEqual, numAscending, numDescending := 0, 0, 0;
    var previous := 0;
    for i := 0 to 10
      invariant Scanned(s, i, previous, numEqual, numAscending, numDescending)
    {
      if i == 3 || i == 6 {
        if s[i] != '-' {
          Misfit(s, i);
          return false;
        }
        ScanSeparator(s, i, previous, numEqual, numAscending, numDescending);
      } else {
        if s[i] < '0' || s[i] > '9' {
          Misfit(s, i);
          return false;
        }
        ScanDigit(s, i, previous, numEqual, numAscending, numDescending);
        var c := s[i] as int;
        numEqual := numEqual + if c == previous then 1 else 0;
        numAscending := numAscending + if c == previous + 1 then 1 else 0;
        numDescending := numDescending + if c == previous - 1 then 1 else 0;
        previous := c;
      }
    }
    ScannedAll(s, previous, numEqual, numAscending, numDescending);
    r := numEqual != 7 && (s[0] != '1' || numAscending != 7) && (s[0] != '8' || numDescending != 7);
  }

  // ---- Division by 36 ----

  const UINT32 := 0x1_0000_0000
  const UINT48 := 0x1_0000_0000_0000

  /** Eight ninths of `x`, by adding up shifted copies. */
  function EightNinths(x: nat): nat {
    var q0 := x - x / 0x8;
    var q1 := q0 + q0 / 0x40;
    var q2 := q1 + q1 / 0x1000;
    var q3 := q2 + q2 / 0x100_0000;
    q3 + q3 / UINT48
  }

  /** The sum is too small by less than five, and too large by less than eight ninths. */
  lemma EightNinthsBounds(x: nat)
    requires x < UINT48
    ensures 8 * x - 45 < 9 * EightNinths(x) < 8 * (x + 1)
    ensures EightNinths(x) < UINT48
  {
    var q0 := x - x / 0x8;
    assert 7 * x <= 8 * q0 <= 7 * x + 7;
    var q1 := q0 + q0 / 0x40;
    assert 65 * q0 - 63 <= 64 * q1 <= 65 * q0;
    var q2 := q1 + q1 / 0x1000;
    assert 0x1001 * q1 - 0xFFF <= 0x1000 * q2 <= 0x1001 * q1;
    var q3 := q2 + q2 / 0x100_0000;
    assert 0x100_0001 * q2 - 0xFF_FFFF <= 0x100_0000 * q3 <= 0x100_0001 * q2;
    assert q3 / UINT48 == 0;
  }

  lemma QuotientIsCloseEnough(x: nat)
    requires x < UINT48
    ensures 0 <= x - 36 * (EightNinths(x) / 0x20) < 72
  {
    EightNinthsBounds(x);
  }

  /** The remainder survives the reduction of both operands to 32 bits. */
  lemma RemainderIn32Bits(x: nat, q: nat)
    requires 0 <= x - 36 * q < 72
    ensures (x % UINT32 - q % UINT32 * 36) % UINT32 == x - 36 * q
  {
    var a, b := x / UINT32, q / UINT32;
    assert x % UINT32 - q % UINT32 * 36 == x - 36 * q + UINT32 * (36 * b - a);
    WrapAround(x - 36 * q, 36 * b - a);
  }

  lemma WrapAround(r: int, k: int)
    requires 0 <= r < 72
    ensures (r + UINT32 * k) % UINT32 == r
  {
  }

  /**
   Divides by 36 and yields the quotient and the remainder, with 64-bit and 32-bit arithmetic and no
   division.
   */
  method DivideBy36(x: nat) returns (quotient: nat, c: nat)
    requires x < UINT48
    ensures quotient == x / 36 && c == x % 36
  {
    var q := x - x / 0x8;
    q := q + q / 0x40;
    q := q + q / 0x1000;
    q := q + q / 0x100_0000;
    q := q + q / UINT48;
    assert q == EightNinths(x);
    q := q / 0x20;
    QuotientIsCloseEnough(x);
    RemainderIn32Bits(x, q);
    var r := (x % UINT32 - q % UINT32 * 36) % UINT32;
    var d := (r + 28) / 0x40;
    assert d == if r > 35 then 1 else 0;
    quotient := q + d;
    c := r - d * 36;
    assert x == 36 * quotient + c && 0 <= c < 36;
  }

  // ---- Base 36 ----

  /** A digit or a capital letter. */
  predicate IsBase36(c: char) {
    '0' <= c <= '9' || 'A' <= c <= 'Z'
  }

  function DigitChar(c: nat): (r: char)
    requires c < 36
    ensures IsBase36(r)
  {
    if c < 10 then '0' + c as char else 'A' + (c - 10) as char
  }

  function DigitValue(c: char): (v: nat) {
    if '0' <= c <= '9' then c as int - '0' as int
    else if 'A' <= c <= 'Z' then c as int - 'A' as int + 10
    else 0
  }

  lemma DigitRoundTrip(c: nat)
    requires c < 36
    ensures DigitValue(DigitChar(c)) == c
  {
  }

  /** The number that base-36 digits stand for. */
  function Decode36(s: string): nat {
    if s == "" then 0 else 36 * Decode36(s[..|s| - 1]) + DigitValue(s[|s| - 1])
  }

  function Power36(n: nat): nat {
    if n == 0 then 1 else 36 * Power36(n - 1)
  }

  /** Transforms an index into the alphabet of digits and capital letters, without a branch. */
  method AlphabetChar(c: nat) returns (r: char)
    requires c < 36
    ensures r == DigitChar(c)
  {
    var t := c + 0x80 - 10;
    var signed := if t >= 0x80 then t - 0x100 else t;
    var shifted := if signed < 0 then -1 else 0;
    var gap := if shifted == -1 then 7 else 0;
    r := (c + '0' as int + gap) as char;
  }

  /** A number with zeros appended in base 36. */
  function Shifted(n: nat, places: nat): nat {
    if places == 0 then n else 36 * Shifted(n, places - 1)
  }

  lemma {:induction false} ShiftedSum(a: nat, b: nat, places: nat)
    ensures Shifted(a + b, places) == Shifted(a, places) + Shifted(b, places)
  {
    if places > 0 {
      ShiftedSum(a, b, places - 1);
    }
  }

  lemma {:induction false} ShiftedOnce(n: nat, places: nat)
    ensures Shifted(36 * n, places) == Shifted(n, places + 1)
  {
    if places > 0 {
      ShiftedOnce(n, places - 1);
    }
  }

  /** Putting a digit in front adds its value at the highest place. */
  lemma {:induction false} DecodePrepend(c: char, s: string)
    ensures Decode36([c] + s) == Shifted(DigitValue(c), |s|) + Decode36(s)
  {
    if s == "" {
      assert [c] + s == [c];
      assert [c][..0] == "";
    } else {
      var init := s[..|s| - 1];
      DecodePrepend(c, init);
      assert ([c] + s)[..|s|] == [c] + init;
    }
  }

  /** Writes the lowest base-36 digit of a number and returns what is left of it. */
  method WriteDigit(a: array<char>, k: nat, code: nat, ghost end: nat) returns (quotient: nat)
    requires k < end <= a.Length && code < UINT48
    modifies a
    ensures quotient == code / 36 && a[k] == DigitChar(code % 36)
    ensures a[k..end] == [DigitChar(code % 36)] + old(a[k + 1..end])
    ensures forall j :: 0 <= j < a.Length && j != k ==> a[j] == old(a[j])
  {
    var c;
    quotient, c := DivideBy36(code);
    a[k] := AlphabetChar(c);
  }

  /** What is left of the number stands before the digits so far. */
  predicate IsSplit(word: nat, code: nat, digits: string) {
    word == Shifted(code, |digits|) + Decode36(digits) && forall k :: 0 <= k < |digits| ==> IsBase36(digits[k])
  }

  lemma DigitInFront(word: nat, code: nat, digits: string)
    requires IsSplit(word, code, digits)
    ensures IsSplit(word, code / 36, [DigitChar(code % 36)] + digits)
  {
    DecodePrepend(DigitChar(code % 36), digits);
    DigitRoundTrip(code % 36);
    ShiftedSum(36 * (code / 36), code % 36, |digits|);
    ShiftedOnce(code / 36, |digits|);
  }

  lemma {:induction false} ShiftedZero(places: nat)
    ensures Shifted(0, places) == 0
  {
    if places > 0 {
      ShiftedZero(places - 1);
    }
  }

  lemma AllDigitsWritten(word: nat, digits: string)
    requires IsSplit(word, 0, digits)
    ensures Decode36(digits) == word
  {
    ShiftedZero(|digits|);
  }

  lemma QuotientBelow(code: nat, n: nat)
    requires n > 0 && code < Power36(n)
    ensures code / 36 < Power36(n - 1)
  {
  }

  /** Writes nine base-36 digits of a number, the lowest last. */
  method WriteBase36(a: array<char>, at: nat, word: nat)
    requires at + 9 <= a.Length && word < Power36(9)
    modifies a
    ensures Decode36(a[at..at + 9]) == word
    ensures forall k :: at <= k < at + 9 ==> IsBase36(a[k])
    ensures forall k :: 0 <= k < a.Length && !(at <= k < at + 9) ==> a[k] == old(a[k])
  {
    Power36Of9();
    var code: nat := word;
    for i := 0 to 9
      invariant code < Power36(9 - i) && code < UINT48
      invariant IsSplit(word, code, a[at + 9 - i..at + 9])
      invariant forall k :: 0 <= k < a.Length && !(at + 9 - i <= k < at + 9) ==> a[k] == old(a[k])
    {
      DigitInFront(word, code, a[at + 9 - i..at + 9]);
      QuotientBelow(code, 9 - i);
      code := WriteDigit(a, at + 8 - i, code, at + 9);
    }
    assert code == 0;
    assert a[at + 9 - 9..at + 9] == a[at..at + 9];
    AllDigitsWritten(word, a[at..at + 9]);
    assert forall k :: at <= k < at + 9 ==> a[k] == a[at..at + 9][k - at];
  }

  lemma Power36Of9()
    ensures Power36(9) == 101559956668416
  {
    assert Power36(3) == 46656;
    assert Power36(6) == 2176782336;
  }

  // ---- Setup payload ----

  datatype Flags = Flags(paired: bool, ip: bool, ble: bool)

  type SetupId = s: string | |s| == 4 witness "0000"

  /** What a payload is made of; setup code and setup ID are given together or not at all. */
  datatype Setup = Setup(category: nat, flags: Flags, code: Option<string>, id: Option<SetupId>)

  /** The source's preconditions. */
  predicate Payable(x: Setup) {
    && (x.code.Some? <==> x.id.Some?)
    && (x.code.Some? ==> HasCodeFormat(x.code.value) && !x.flags.paired)
    && (x.flags.ip || x.flags.ble)
    && x.category > 0
  }

  function Bit(b: bool): nat {
    if b then 1 else 0
  }

  /** The number that decimal digits stand for. */
  function DecimalValue(ds: string): nat {
    if ds == "" then 0 else 10 * DecimalValue(ds[..|ds| - 1]) + DigitValue(ds[|ds| - 1])
  }

  function CodeNumber(code: Option<string>): nat
    requires code.Some? ==> HasCodeFormat(code.value)
  {
    if code.None? then 0 else DecimalValue(Digits(code.value, 10))
  }

  /** Category in bits 31 to 38, flags in bits 27 to 29, setup code in bits 0 to 26. */
  function Word(x: Setup): nat
    requires Payable(x)
  {
    x.category % 0x100 * 0x8000_0000 + Bit(x.flags.ble) * 0x2000_0000 + Bit(x.flags.ip) * 0x1000_0000
    + Bit(x.flags.paired) * 0x800_0000 + CodeNumber(x.code)
  }

  /** What the characters of a payload are. */
  predicate IsPayload(payload: string, x: Setup)
    requires Payable(x)
  {
    && |payload| == 21
    && payload[..7] == "X-HM://"
    && (forall k :: 7 <= k < 16 ==> IsBase36(payload[k]))
    && Decode36(payload[7..16]) == Word(x)
    && payload[16..20] == (if x.id.Some? then x.id.value else "0000")
    && payload[20] == '\0'
  }

  lemma DecimalValueOf8(a: string)
    requires |a| == 8 && forall i :: 0 <= i < 8 ==> IsDigit(a[i])
    ensures DecimalValue(a) ==
            DigitValue(a[0]) * 10000000 + DigitValue(a[1]) * 1000000 + DigitValue(a[2]) * 100000
            + DigitValue(a[3]) * 10000 + DigitValue(a[4]) * 1000 + DigitValue(a[5]) * 100
            + DigitValue(a[6]) * 10 + DigitValue(a[7])
    ensures DecimalValue(a) < 0x800_0000
  {
    forall n | 1 <= n <= 8
      ensures DecimalValue(a[..n]) == 10 * DecimalValue(a[..n - 1]) + DigitValue(a[n - 1])
    {
      assert a[..n][..n - 1] == a[..n - 1];
    }
    assert a[..8] == a && a[..0] == "";
  }

  lemma {:induction false} DecimalValueInjective(a: string, b: string)
    requires |a| == |b| && DecimalValue(a) == DecimalValue(b)
    requires forall i :: 0 <= i < |a| ==> IsDigit(a[i]) && IsDigit(b[i])
    ensures a == b
  {
    if a != "" {
      var n := |a| - 1;
      DecimalValueInjective(a[..n], b[..n]);
      assert a == a[..n] + [a[n]] && b == b[..n] + [b[n]];
    }
  }

  /** The digits of a code determine its characters. */
  lemma CodeOfDigits(s: string, t: string)
    requires HasCodeFormat(s) && HasCodeFormat(t)
    requires [s[0], s[1], s[2], s[4], s[5], s[7], s[8], s[9]] == [t[0], t[1], t[2], t[4], t[5], t[7], t[8], t[9]]
    ensures s == t
  {
    var a, b := [s[0], s[1], s[2], s[4], s[5], s[7], s[8], s[9]], [t[0], t[1], t[2], t[4], t[5], t[7], t[8], t[9]];
    assert s[0] == a[0] == b[0] == t[0];
    assert s[1] == a[1] == b[1] == t[1];
    assert s[2] == a[2] == b[2] == t[2];
    assert s[4] == a[3] == b[3] == t[4];
    assert s[5] == a[4] == b[4] == t[5];
    assert s[7] == a[5] == b[5] == t[7];
    assert s[8] == a[6] == b[6] == t[8];
    assert s[9] == a[7] == b[7] == t[9];
  }

  lemma DigitsAreDigits(s: string)
    requires HasCodeFormat(s)
    ensures |Digits(s, 10)| == 8 && forall i :: 0 <= i < 8 ==> IsDigit(Digits(s, 10)[i])
  {
    DigitsOfCode(s);
    var a := [s[0], s[1], s[2], s[4], s[5], s[7], s[8], s[9]];
    assert forall i :: 0 <= i < 8 ==> IsDigit(a[i]);
  }

  lemma CodeNumberInjective(s: string, t: string)
    requires HasCodeFormat(s) && HasCodeFormat(t) && CodeNumber(Some(s)) == CodeNumber(Some(t))
    ensures s == t
  {
    DigitsAreDigits(s);
    DigitsAreDigits(t);
    DecimalValueInjective(Digits(s, 10), Digits(t, 10));
    DigitsOfCode(s);
    DigitsOfCode(t);
    CodeOfDigits(s, t);
  }

  lemma CodeNumberBound(code: Option<string>)
    requires code.Some? ==> HasCodeFormat(code.value)
    ensures CodeNumber(code) < 0x800_0000
  {
    if code.Some? {
      DigitsOfCode(code.value);
      DecimalValueOf8(Digits(code.value, 10));
    }
  }

  /** No valid setup code has the number that stands for none. */
  lemma ValidCodeIsNotZero(s: string)
    requires IsSetupCode(s)
    ensures CodeNumber(Some(s)) != 0
  {
    ZeroCodeNumber();
    if CodeNumber(Some(s)) == 0 {
      CodeNumberInjective(s, Repeated('0'));
    }
  }

  lemma ZeroCodeNumber()
    ensures HasCodeFormat(Repeated('0')) && CodeNumber(Some(Repeated('0'))) == 0
  {
    DigitsOfCode(Repeated('0'));
    DecimalValueOf8(Digits(Repeated('0'), 10));
  }

  lemma CategoryOfWord(category: nat, ble: nat, ip: nat, paired: nat, number: nat)
    requires ble <= 1 && ip <= 1 && paired <= 1 && number < 0x800_0000
    ensures var w := category * 0x8000_0000 + ble * 0x2000_0000 + ip * 0x1000_0000 + paired * 0x800_0000 + number;
            w / 0x8000_0000 == category && w % 0x800_0000 == number
  {
    var w := category * 0x8000_0000 + ble * 0x2000_0000 + ip * 0x1000_0000 + paired * 0x800_0000 + number;
    QuotientAndRemainder(w, 0x8000_0000, category, w - category * 0x8000_0000);
    QuotientAndRemainder(w, 0x800_0000, category * 16 + ble * 4 + ip * 2 + paired, number);
  }

  /** A bit of a word: what is left above it is even with the bit added. */
  lemma BitOfWord(w: nat, m: nat, q: nat, bit: nat, r: nat)
    requires bit <= 1 && w == m * (2 * q + bit) + r && r < m
    ensures w / m % 2 == bit
  {
    QuotientAndRemainder(w, m, 2 * q + bit, r);
  }

  lemma FlagsOfWord(category: nat, ble: nat, ip: nat, paired: nat, number: nat)
    requires ble <= 1 && ip <= 1 && paired <= 1 && number < 0x800_0000
    ensures var w := category * 0x8000_0000 + ble * 0x2000_0000 + ip * 0x1000_0000 + paired * 0x800_0000 + number;
            w / 0x2000_0000 % 2 == ble && w / 0x1000_0000 % 2 == ip && w / 0x800_0000 % 2 == paired
  {
    var w := category * 0x8000_0000 + ble * 0x2000_0000 + ip * 0x1000_0000 + paired * 0x800_0000 + number;
    BitOfWord(w, 0x2000_0000, category * 2, ble, ip * 0x1000_0000 + paired * 0x800_0000 + number);
    BitOfWord(w, 0x1000_0000, category * 4 + ble, ip, paired * 0x800_0000 + number);
    BitOfWord(w, 0x800_0000, category * 8 + ble * 2 + ip, paired, number);
  }

  /** The fields of the word can be read back. */
  lemma WordFields(x: Setup)
    requires Payable(x)
    ensures Word(x) < 0x80_0000_0000
    ensures Word(x) / 0x8000_0000 == x.category % 0x100
    ensures Word(x) / 0x2000_0000 % 2 == Bit(x.flags.ble)
    ensures Word(x) / 0x1000_0000 % 2 == Bit(x.flags.ip)
    ensures Word(x) / 0x800_0000 % 2 == Bit(x.flags.paired)
    ensures Word(x) % 0x800_0000 == CodeNumber(x.code)
  {
    CodeNumberBound(x.code);
    var ble, ip, paired := Bit(x.flags.ble), Bit(x.flags.ip), Bit(x.flags.paired);
    CategoryOfWord(x.category % 0x100, ble, ip, paired, CodeNumber(x.code));
    FlagsOfWord(x.category % 0x100, ble, ip, paired, CodeNumber(x.code));
  }

  /**
   A payload with a valid setup code, or with none, tells everything it was made of: no two setups
   that differ in category (of which it has eight bits), flags, setup code or setup ID share one.
   */
  lemma PayloadIsUnambiguous(payload: string, x: Setup, y: Setup)
    requires Payable(x) && Payable(y) && IsPayload(payload, x) && IsPayload(payload, y)
    requires x.code.Some? ==> IsSetupCode(x.code.value)
    requires y.code.Some? ==> IsSetupCode(y.code.value)
    ensures x.category % 0x100 == y.category % 0x100 && x.flags == y.flags && x.code == y.code && x.id == y.id
  {
    WordFields(x);
    WordFields(y);
    if x.code.Some? {
      ValidCodeIsNotZero(x.code.value);
    }
    if y.code.Some? {
      ValidCodeIsNotZero(y.code.value);
    }
    if x.code.Some? && y.code.Some? {
      CodeNumberInjective(x.code.value, y.code.value);
    }
  }

  const ALPHABET := "0123456789ABCDEFGHIJKLMNOPQRSTUVWXYZ"

  lemma DigitOfAlphabet(c: char)
    requires IsBase36(c)
    ensures DigitValue(c) < 36 && ALPHABET[DigitValue(c)] == c
  {
  }

  lemma SameDigit(c: char, d: char)
    requires IsBase36(c) && IsBase36(d) && DigitValue(c) == DigitValue(d)
    ensures c == d
  {
    DigitOfAlphabet(c);
    DigitOfAlphabet(d);
  }

  lemma SameDivision(a: nat, m: nat, b: nat, n: nat)
    requires m < 36 && n < 36 && 36 * a + m == 36 * b + n
    ensures a == b && m == n
  {
  }

  lemma SameQuotientAndDigit(a: nat, b: nat, c: char, d: char)
    requires IsBase36(c) && IsBase36(d) && 36 * a + DigitValue(c) == 36 * b + DigitValue(d)
    ensures a == b && c == d
  {
    SameDivision(a, DigitValue(c), b, DigitValue(d));
    SameDigit(c, d);
  }

  lemma {:induction false} Decode36Injective(s: string, t: string)
    requires |s| == |t| && Decode36(s) == Decode36(t)
    requires forall k :: 0 <= k < |s| ==> IsBase36(s[k]) && IsBase36(t[k])
    ensures s == t
  {
    if s != "" {
      var n := |s| - 1;
      SameQuotientAndDigit(Decode36(s[..n]), Decode36(t[..n]), s[n], t[n]);
      Decode36Injective(s[..n], t[..n]);
      assert s == s[..n] + [s[n]] && t == t[..n] + [t[n]];
    }
  }

  /** A setup has one payload. */
  lemma PayloadIsDetermined(a: string, b: string, x: Setup)
    requires Payable(x) && IsPayload(a, x) && IsPayload(b, x)
    ensures a == b
  {
    Decode36Injective(a[7..16], b[7..16]);
    assert a == a[..7] + a[7..16] + a[16..20] + [a[20]];
    assert b == b[..7] + b[7..16] + b[16..20] + [b[20]];
  }

  lemma Decode36Of9(s: string)
    requires |s| == 9
    ensures Decode36(s) ==
            DigitValue(s[0]) * 2821109907456 + DigitValue(s[1]) * 78364164096 + DigitValue(s[2]) * 2176782336
            + DigitValue(s[3]) * 60466176 + DigitValue(s[4]) * 1679616 + DigitValue(s[5]) * 46656
            + DigitValue(s[6]) * 1296 + DigitValue(s[7]) * 36 + DigitValue(s[8])
  {
    forall n | 1 <= n <= 9
      ensures Decode36(s[..n]) == 36 * Decode36(s[..n - 1]) + DigitValue(s[n - 1])
    {
      assert s[..n][..n - 1] == s[..n - 1];
    }
    assert s[..0] == "" && s[..9] == s;
  }

  /** A payload by its nine digits. */
  lemma PayloadOf(x: Setup, d: string, id: string)
    requires Payable(x) && |d| == 9 && (forall k :: 0 <= k < 9 ==> IsBase36(d[k])) && Decode36(d) == Word(x)
    requires id == if x.id.Some? then x.id.value else "0000"
    ensures IsPayload("X-HM://" + d + id + "\0", x)
  {
    var payload := "X-HM://" + d + id + "\0";
    assert payload[..7] == "X-HM://" && payload[7..16] == d && payload[16..20] == id;
  }

  lemma CodeNumberOf51808582()
    ensures HasCodeFormat("518-08-582") && CodeNumber(Some("518-08-582")) == 51808582
  {
    DigitsOfCode("518-08-582");
    DecimalValueOf8(Digits("518-08-582", 10));
  }

  // The payloads that the tests of the original expect.

  lemma ExpectedPayloadOverIp()
    ensures var x := Setup(7, Flags(false, true, false), Some("518-08-582"), Some("7OSX"));
            Payable(x) && IsPayload("X-HM://" + "0071WK4SM" + "7OSX" + "\0", x)
  {
    CodeNumberOf51808582();
    Decode36Of9("0071WK4SM");
    PayloadOf(Setup(7, Flags(false, true, false), Some("518-08-582"), Some("7OSX")), "0071WK4SM", "7OSX");
  }

  lemma ExpectedPayloadOverBle()
    ensures var x := Setup(7, Flags(false, false, true), Some("518-08-582"), Some("7OSX"));
            Payable(x) && IsPayload("X-HM://" + "0076CDMX2" + "7OSX" + "\0", x)
  {
    CodeNumberOf51808582();
    Decode36Of9("0076CDMX2");
    PayloadOf(Setup(7, Flags(false, false, true), Some("518-08-582"), Some("7OSX")), "0076CDMX2", "7OSX");
  }

  lemma ExpectedPayloadsWithoutCode()
    ensures var x := Setup(7, Flags(false, true, false), None, None);
            Payable(x) && IsPayload("X-HM://" + "00711PP1C" + "0000" + "\0", x)
    ensures var x := Setup(7, Flags(true, true, false), None, None);
            Payable(x) && IsPayload("X-HM://" + "00739MG3K" + "0000" + "\0", x)
  {
    Decode36Of9("00711PP1C");
    PayloadOf(Setup(7, Flags(false, true, false), None, None), "00711PP1C", "0000");
    Decode36Of9("00739MG3K");
    PayloadOf(Setup(7, Flags(true, true, false), None, None), "00739MG3K", "0000");
  }

  /** Without the rule against trivial codes a payload could be ambiguous. */
  lemma ZeroCodeIsAmbiguous(category: nat, flags: Flags)
    requires category > 0 && (flags.ip || flags.ble) && !flags.paired
    ensures var x := Setup(category, flags, Some("000-00-000"), Some("0000"));
            var y := Setup(category, flags, None, None);
            Payable(x) && Payable(y) && forall payload :: IsPayload(payload, x) <==> IsPayload(payload, y)
  {
    DigitsOfCode("000-00-000");
    DecimalValueOf8(Digits("000-00-000", 10));
  }

  method PutChars(a: array<char>, at: nat, s: string)
    requires at + |s| <= a.Length
    modifies a
    ensures a[at..at + |s|] == s
    ensures forall k :: 0 <= k < a.Length && !(at <= k < at + |s|) ==> a[k] == old(a[k])
  {
    for i := 0 to |s|
      invariant forall k :: 0 <= k < a.Length ==> a[k] == if at <= k < at + i then s[k - at] else old(a[k])
    {
      a[at + i] := s[i];
    }
  }

  method SetupCodeDigits(s: string) returns (r: nat)
    requires HasCodeFormat(s)
    ensures r == CodeNumber(Some(s))
  {
    var zero := '0' as int;
    r := (s[0] as int - zero) * 10000000 + (s[1] as int - zero) * 1000000 + (s[2] as int - zero) * 100000
         + (s[4] as int - zero) * 10000 + (s[5] as int - zero) * 1000 + (s[7] as int - zero) * 100
         + (s[8] as int - zero) * 10 + (s[9] as int - zero);
    DigitsOfCode(s);
    DecimalValueOf8(Digits(s, 10));
  }

  method GetSetupPayload(x: Setup) returns (payload: array<char>)
    requires Payable(x)
    ensures fresh(payload) && IsPayload(payload[..], x)
  {
    payload := new char[21](_ => '\0');
    PutChars(payload, 0, "X-HM://");

    var word := x.category % 0x100 * 0x8000_0000 + (if x.flags.ble then 0x2000_0000 else 0)
                + (if x.flags.ip then 0x1000_0000 else 0) + (if x.flags.paired then 0x800_0000 else 0);
    if x.code.Some? {
      var number := SetupCodeDigits(x.code.value);
      word := word + number;
    }
    WordFields(x);
    Power36Of9();
    WriteBase36(payload, 7, word);
    ghost var digits := payload[7..16];
    PutChars(payload, 16, if x.id.Some? then x.id.value else "0000");
    assert payload[7..16] == digits;
    assert payload[..][..7] == payload[..7] == "X-HM://";
    assert payload[..][7..16] == digits;
    assert payload[..][16..20] == payload[16..20];
  }
}
