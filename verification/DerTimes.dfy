/** GeneralizedTime and UTCTime in both directions: pki/parse_values.cc and
  * pki/encode_values.cc, with the byte order of pki/input.h.
  */
module DerTimes {
  import opened Basics

  const ZERO: byte := 48
  const ZULU: byte := 90
  const U8: nat := 256
  const U16: nat := 65536

  /** der::GeneralizedTime: the year is a `uint16_t`, the other fields are `uint8_t`. */
  datatype Time = Time(year: nat, month: byte, day: byte, hours: byte, minutes: byte, seconds: byte)

  /** operator< on GeneralizedTime compares the fields in order. */
  predicate Less(a: Time, b: Time) {
    a.year < b.year || (a.year == b.year && (
      a.month < b.month || (a.month == b.month && (
        a.day < b.day || (a.day == b.day && (
          a.hours < b.hours || (a.hours == b.hours && (
            a.minutes < b.minutes || (a.minutes == b.minutes &&
              a.seconds < b.seconds)))))))))
  }

  function DaysInMonth(year: nat, month: nat): nat {
    if month in {4, 6, 9, 11} then 30
    else if month != 2 then 31
    else if year % 4 == 0 && (year % 100 != 0 || year % 400 == 0) then 29
    else 28
  }

  /** A date of the calendar and a time of the day, leap seconds included. */
  predicate IsValid(t: Time) {
    && 1 <= t.month <= 12 && 1 <= t.day <= DaysInMonth(t.year, t.month)
    && t.hours <= 23 && t.minutes <= 59 && t.seconds <= 60
  }

  /** ValidateGeneralizedTime */
  method ValidateGeneralizedTime(time: Time) returns (ok: bool)
    ensures ok <==> IsValid(time)
  {
    if time.month < 1 || time.month > 12 {
      return false;
    }
    if time.day < 1 {
      return false;
    }
    if time.hours > 23 {
      return false;
    }
    if time.minutes > 59 {
      return false;
    }
    if time.seconds > 60 {
      return false;
    }
    if time.month in {4, 6, 9, 11} {
      return time.day <= 30;
    } else if time.month in {1, 3, 5, 7, 8, 10, 12} {
      return time.day <= 31;
    } else if time.year % 4 == 0 && (time.year % 100 != 0 || time.year % 400 == 0) {
      return time.day <= 29;
    }
    return time.day <= 28;
  }

  function DaysBefore(year: nat, month: nat): nat
    requires 1 <= month <= 13
  {
    if month == 1 then 0 else DaysBefore(year, month - 1) + DaysInMonth(year, month - 1)
  }

  function DaysInYears(n: nat): nat {
    if n == 0 then 0 else DaysInYears(n - 1) + DaysBefore(n - 1, 13)
  }

  lemma DaysInYear(year: nat)
    ensures DaysBefore(year, 13) == 337 + DaysInMonth(year, 2)
  {
    var february := DaysInMonth(year, 2);
    assert DaysBefore(year, 2) == 31;
    assert DaysBefore(year, 3) == 31 + february;
    assert DaysBefore(year, 4) == 62 + february;
    assert DaysBefore(year, 5) == 92 + february;
    assert DaysBefore(year, 6) == 123 + february;
    assert DaysBefore(year, 7) == 153 + february;
    assert DaysBefore(year, 8) == 184 + february;
    assert DaysBefore(year, 9) == 215 + february;
    assert DaysBefore(year, 10) == 245 + february;
    assert DaysBefore(year, 11) == 276 + february;
    assert DaysBefore(year, 12) == 306 + february;
  }

  predicate IsLeap(y: nat) {
    y % 4 == 0 && (y % 100 != 0 || y % 400 == 0)
  }

  /** How many years before `n` are multiples of 4, but not of 100 unless of 400. */
  function LeapsBefore(n: nat): int {
    (n + 3) / 4 - (n + 99) / 100 + (n + 399) / 400
  }

  lemma NextMultiple4(y: nat)
    ensures (y + 4) / 4 == (y + 3) / 4 + if y % 4 == 0 then 1 else 0
  {
  }

  lemma NextMultiple100(y: nat)
    ensures (y + 100) / 100 == (y + 99) / 100 + if y % 100 == 0 then 1 else 0
    ensures y % 100 == 0 ==> y % 4 == 0
  {
    var q := y / 100;
    assert y % 100 == 0 ==> y == 4 * (25 * q);
  }

  lemma NextMultiple400(y: nat)
    ensures (y + 400) / 400 == (y + 399) / 400 + if y % 400 == 0 then 1 else 0
    ensures y % 400 == 0 ==> y % 100 == 0
  {
    var q := y / 400;
    assert y % 400 == 0 ==> y == 100 * (4 * q);
  }

  lemma NextLeap(y: nat)
    ensures LeapsBefore(y + 1) == LeapsBefore(y) + if IsLeap(y) then 1 else 0
  {
    NextMultiple4(y);
    NextMultiple100(y);
    NextMultiple400(y);
  }

  /** The month lengths are those of the Gregorian calendar: the years before `n` have 365 days
    * each and one more for each leap year. */
  lemma {:induction false} CalendarIsGregorian(n: nat)
    ensures DaysInYears(n) == 365 * n + LeapsBefore(n)
  {
    hide DaysBefore, LeapsBefore, DaysInMonth, IsLeap;
    if n == 0 {
      NoLeaps();
    } else {
      CalendarIsGregorian(n - 1);
      DaysInYear(n - 1);
      February(n - 1);
      NextLeap(n - 1);
    }
  }

  lemma NoLeaps()
    ensures LeapsBefore(0) == 0
  {
  }

  lemma February(y: nat)
    ensures DaysInMonth(y, 2) == if IsLeap(y) then 29 else 28
  {
  }

  // ----- decimal digits

  predicate IsDigits(b: Bytes) {
    forall i | 0 <= i < |b| :: ZERO <= b[i] <= ZERO + 9
  }

  function Decimal(b: Bytes): int
    decreases |b|
  {
    if b == [] then 0 else 10 * Decimal(b[..|b| - 1]) + (b[|b| - 1] - ZERO)
  }

  function TwoDigits(v: nat): (b: Bytes)
    requires v < 100
    ensures |b| == 2
  {
    [ZERO + v / 10, ZERO + v % 10]
  }

  function FourDigits(v: nat): (b: Bytes)
    requires v < 10000
    ensures |b| == 4
  {
    TwoDigits(v / 100) + TwoDigits(v % 100)
  }

  lemma DecimalTwo(b: Bytes)
    requires |b| == 2
    ensures Decimal(b) == 10 * (b[0] - ZERO) + (b[1] - ZERO)
  {
    var first := b[..1];
    assert first[..0] == [];
    assert Decimal(first) == first[0] - ZERO;
  }

  lemma DecimalFour(b: Bytes)
    requires |b| == 4
    ensures Decimal(b) == 100 * Decimal(b[..2]) + Decimal(b[2..])
  {
    DecimalTwo(b[2..]);
    assert b[..3][..2] == b[..2];
    assert Decimal(b[..3]) == 10 * Decimal(b[..2]) + (b[2] - ZERO);
  }

  function Pow10(n: nat): nat {
    if n == 0 then 1 else 10 * Pow10(n - 1)
  }

  lemma {:induction false} DecimalRange(b: Bytes)
    requires IsDigits(b)
    ensures 0 <= Decimal(b) < Pow10(|b|)
    decreases |b|
  {
    if b != [] { DecimalRange(b[..|b| - 1]); }
  }

  lemma TwoDigitsInverse(b: Bytes, v: nat)
    requires |b| == 2 && v < 100
    ensures b == TwoDigits(v) <==> IsDigits(b) && Decimal(b) == v
  {
    DecimalTwo(b);
  }

  lemma FourDigitsInverse(b: Bytes, v: nat)
    requires |b| == 4 && v < 10000
    ensures b == FourDigits(v) <==> IsDigits(b) && Decimal(b) == v
  {
    DecimalFour(b);
    assert b == b[..2] + b[2..];
    TwoDigitsInverse(b[..2], v / 100);
    TwoDigitsInverse(b[2..], v % 100);
    if IsDigits(b) {
      DecimalRange(b[..2]);
      DecimalRange(b[2..]);
      assert Pow10(2) == 100;
    }
    if b == FourDigits(v) {
      assert b[..2] == TwoDigits(v / 100) && b[2..] == TwoDigits(v % 100);
      forall i | 0 <= i < 4 ensures ZERO <= b[i] <= ZERO + 9 {
        assert b[i] == if i < 2 then b[..2][i] else b[2..][i - 2];
      }
    }
  }

  // ----- reading

  class ByteReader {
    var data: Bytes

    constructor (input: Bytes)
      ensures data == input
    {
      data := input;
    }

    method ReadByte() returns (b: Option<byte>)
      modifies this
      ensures if old(data) == [] then b == None && data == [] else b == Some(old(data)[0]) && data == old(data)[1..]
    {
      if data == [] {
        return None;
      }
      b := Some(data[0]);
      data := data[1..];
    }

    /** DecimalStringToUint; `width` is the number of values of the output type. */
    method ReadDecimal(digits: nat, width: nat) returns (value: Option<nat>)
      requires (digits == 2 && width == U8) || (digits <= 4 && width == U16)
      modifies this
      ensures value.Some? <==> |old(data)| >= digits && IsDigits(old(data)[..digits])
      ensures value.Some? ==> value.value == Decimal(old(data)[..digits]) && data == old(data)[digits..]
      ensures value.Some? ==> value.value < Pow10(digits)
    {
      hide IsDigits, Decimal;
      var v := 0;
      NoDigits(data);
      for i := 0 to digits
        invariant i <= |old(data)| && data == old(data)[i..]
        invariant IsDigits(old(data)[..i]) && v == Decimal(old(data)[..i])
      {
        var digit := ReadByte();
        if digit == None {
          return None;
        }
        if digit.value < ZERO || digit.value > ZERO + 9 {
          NotDigits(old(data), i, digits);
          return None;
        }
        DecimalSnoc(old(data), i);
        DecimalRange(old(data)[..i + 1]);
        Pow10Fits(i + 1, digits, width);
        v := Wrap(v * 10 + (digit.value - ZERO), width);
      }
      DecimalRange(old(data)[..digits]);
      return Some(v);
    }
  }

  lemma NoDigits(s: Bytes)
    ensures IsDigits(s[..0]) && Decimal(s[..0]) == 0
  {
  }

  lemma NotDigits(s: Bytes, i: nat, n: nat)
    requires i < |s| && i < n && !(ZERO <= s[i] <= ZERO + 9)
    ensures n <= |s| ==> !IsDigits(s[..n])
  {
    if n <= |s| { assert s[..n][i] == s[i]; }
  }

  lemma DecimalSnoc(s: Bytes, i: nat)
    requires i < |s|
    ensures IsDigits(s[..i + 1]) <==> IsDigits(s[..i]) && ZERO <= s[i] <= ZERO + 9
    ensures Decimal(s[..i + 1]) == 10 * Decimal(s[..i]) + (s[i] - ZERO)
  {
    var t := s[..i + 1];
    assert t[..i] == s[..i] && t == s[..i] + [s[i]];
  }

  /** Conversion to an unsigned type with `width` values. */
  function Wrap(v: nat, width: nat): nat
    requires width > 0
  {
    if v < width then v else v % width
  }

  lemma Pow10Fits(n: nat, digits: nat, width: nat)
    requires n <= digits && ((digits == 2 && width == U8) || (digits <= 4 && width == U16))
    ensures Pow10(n) <= width
  {
    assert Pow10(1) == 10 && Pow10(2) == 100 && Pow10(3) == 1000 && Pow10(4) == 10000;
  }

  /** The five two-digit fields and the final Z. */
  predicate IsTail(b: Bytes) {
    && |b| == 11 && b[10] == ZULU
    && IsDigits(b[0..2]) && IsDigits(b[2..4]) && IsDigits(b[4..6]) && IsDigits(b[6..8]) && IsDigits(b[8..10])
  }

  function TailTime(year: nat, b: Bytes): Time
    requires IsTail(b)
  {
    PairRange(b[0..2]);
    PairRange(b[2..4]);
    PairRange(b[4..6]);
    PairRange(b[6..8]);
    PairRange(b[8..10]);
    Time(year, Decimal(b[0..2]), Decimal(b[2..4]), Decimal(b[4..6]), Decimal(b[6..8]), Decimal(b[8..10]))
  }

  lemma PairRange(b: Bytes)
    requires |b| == 2 && IsDigits(b)
    ensures 0 <= Decimal(b) < 100
  {
    DecimalTwo(b);
  }

  method ReadTail(reader: ByteReader, year: nat) returns (t: Option<Time>)
    modifies reader
    ensures t == if IsTail(old(reader.data)) then Some(TailTime(year, old(reader.data))) else None
  {
    hide Decimal, IsDigits;
    ghost var b := reader.data;
    assert Pow10(2) == 100;
    assert |b| >= 2 ==> b[..2] == b[0..2];
    var month := reader.ReadDecimal(2, U8);
    if month == None { return None; }
    var day := reader.ReadDecimal(2, U8);
    if day == None {
      assert |b| >= 4 ==> b[2..][..2] == b[2..4];
      return None;
    }
    assert b[2..][..2] == b[2..4] && b[2..][2..] == b[4..];
    var hours := reader.ReadDecimal(2, U8);
    if hours == None {
      assert |b| >= 6 ==> b[4..][..2] == b[4..6];
      return None;
    }
    assert b[4..][..2] == b[4..6] && b[4..][2..] == b[6..];
    var minutes := reader.ReadDecimal(2, U8);
    if minutes == None {
      assert |b| >= 8 ==> b[6..][..2] == b[6..8];
      return None;
    }
    assert b[6..][..2] == b[6..8] && b[6..][2..] == b[8..];
    var seconds := reader.ReadDecimal(2, U8);
    if seconds == None {
      assert |b| >= 10 ==> b[8..][..2] == b[8..10];
      return None;
    }
    assert b[8..][..2] == b[8..10] && b[8..][2..] == b[10..];
    var zulu := reader.ReadByte();
    if zulu != Some(ZULU) || reader.data != [] { return None; }
    return Some(Time(year, month.value, day.value, hours.value, minutes.value, seconds.value));
  }

  function ParsedGeneralizedTime(b: Bytes): Option<Time> {
    if |b| == 15 && IsDigits(b[..4]) && IsTail(b[4..]) then
      YearRange(b[..4]);
      var t := TailTime(Decimal(b[..4]), b[4..]);
      if IsValid(t) then Some(t) else None
    else None
  }

  lemma YearRange(b: Bytes)
    requires |b| == 4 && IsDigits(b)
    ensures 0 <= Decimal(b) < 10000
  {
    DecimalRange(b);
    assert Pow10(4) == 10000;
  }

  method ParseGeneralizedTime(b: Bytes) returns (t: Option<Time>)
    ensures t == ParsedGeneralizedTime(b)
  {
    var reader := new ByteReader(b);
    var year := reader.ReadDecimal(4, U16);
    if year == None { return None; }
    t := ReadTail(reader, year.value);
    if t.Some? {
      var ok := ValidateGeneralizedTime(t.value);
      if !ok { return None; }
    }
  }

  function UtcYear(yy: nat): nat {
    if yy < 50 then yy + 2000 else yy + 1900
  }

  function ParsedUTCTime(b: Bytes): Option<Time> {
    if |b| == 13 && IsDigits(b[..2]) && IsTail(b[2..]) then
      PairRange(b[..2]);
      var t := TailTime(UtcYear(Decimal(b[..2])), b[2..]);
      if IsValid(t) then Some(t) else None
    else None
  }

  method ParseUTCTime(b: Bytes) returns (t: Option<Time>)
    ensures t == ParsedUTCTime(b)
  {
    var reader := new ByteReader(b);
    var year := reader.ReadDecimal(2, U16);
    if year == None { return None; }
    t := ReadTail(reader, UtcYear(year.value));
    if t.Some? {
      var ok := ValidateGeneralizedTime(t.value);
      if !ok { return None; }
    }
  }

  // ----- writing

  predicate TailEncodable(t: Time) {
    t.month < 100 && t.day < 100 && t.hours < 100 && t.minutes < 100 && t.seconds < 100
  }

  function EncodedTail(t: Time): (b: Bytes)
    requires TailEncodable(t)
    ensures |b| == 11
  {
    TwoDigits(t.month) + TwoDigits(t.day) + TwoDigits(t.hours) + TwoDigits(t.minutes) + TwoDigits(t.seconds) + [ZULU]
  }

  function EncodedGeneralizedTime(t: Time): (b: Option<Bytes>)
    ensures b.Some? ==> |b.value| == 15
  {
    if t.year < 10000 && TailEncodable(t) then Some(FourDigits(t.year) + EncodedTail(t)) else None
  }

  function EncodedUTCTime(t: Time): (b: Option<Bytes>)
    ensures b.Some? ==> |b.value| == 13
  {
    if 1950 <= t.year < 2050 && TailEncodable(t) then Some(TwoDigits(t.year % 100) + EncodedTail(t)) else None
  }

  lemma QuotientRemainder(q: nat, d: nat)
    requires d < 10
    ensures (10 * q + d) / 10 == q && (10 * q + d) % 10 == d
  {
  }

  lemma SuccessiveDivision(v: nat)
    ensures v % 10 == v % 100 % 10 && v / 10 % 10 == v % 100 / 10 && v / 10 / 10 == v / 100
  {
    var q, r := v / 100, v % 100;
    QuotientRemainder(10 * q + r / 10, r % 10);
    assert v == 10 * (10 * q + r / 10) + r % 10;
    QuotientRemainder(q, r / 10);
  }

  method WriteFourDigit(year: nat, out: array<byte>) returns (ok: bool)
    requires out.Length >= 4
    modifies out
    ensures ok <==> year < 10000
    ensures ok ==> out[..4] == FourDigits(year)
    ensures out[4..] == old(out[4..]) && (!ok ==> out[..4] == old(out[..4]))
  {
    if year >= 10000 {
      return false;
    }
    SuccessiveDivision(year);
    var value := year;
    out[3] := ZERO + value % 10;
    value := value / 10;
    out[2] := ZERO + value % 10;
    value := value / 10;
    out[1] := ZERO + value % 10;
    value := value / 10;
    out[0] := ZERO + value;
    return true;
  }

  method WriteTwoDigit(value: nat, out: array<byte>, at: nat) returns (ok: bool)
    requires at + 2 <= out.Length
    modifies out
    ensures ok <==> value < 100
    ensures ok ==> out[at..at + 2] == TwoDigits(value)
    ensures out[..at] == old(out[..at]) && out[at + 2..] == old(out[at + 2..])
    ensures !ok ==> out[at..at + 2] == old(out[at..at + 2])
  {
    if value >= 100 {
      return false;
    }
    out[at] := ZERO + value / 10;
    out[at + 1] := ZERO + value % 10;
    return true;
  }

  /** Writes the fields after the year at `at`, and the Z. */
  method WriteTail(t: Time, out: array<byte>, at: nat) returns (ok: bool)
    requires at + 11 == out.Length
    modifies out
    ensures ok <==> TailEncodable(t)
    ensures ok ==> out[..] == old(out[..at]) + EncodedTail(t)
  {
    hide TwoDigits;
    ok := WriteTwoDigit(t.month, out, at);
    if !ok { return; }
    ok := WriteTwoDigit(t.day, out, at + 2);
    if !ok { return; }
    assert out[..at + 2] == old(out[..at]) + TwoDigits(t.month);
    assert out[..at + 4] == out[..at + 2] + TwoDigits(t.day);
    ok := WriteTwoDigit(t.hours, out, at + 4);
    if !ok { return; }
    assert out[..at + 6] == out[..at + 4] + TwoDigits(t.hours);
    ok := WriteTwoDigit(t.minutes, out, at + 6);
    if !ok { return; }
    assert out[..at + 8] == out[..at + 6] + TwoDigits(t.minutes);
    ok := WriteTwoDigit(t.seconds, out, at + 8);
    if !ok { return; }
    assert out[..at + 10] == out[..at + 8] + TwoDigits(t.seconds);
    ghost var written := out[..at + 10];
    out[at + 10] := ZULU;
    assert out[..] == written + [ZULU];
  }

  method EncodeGeneralizedTime(t: Time, out: array<byte>) returns (ok: bool)
    requires out.Length == 15
    modifies out
    ensures ok <==> EncodedGeneralizedTime(t).Some?
    ensures ok ==> EncodedGeneralizedTime(t) == Some(out[..])
  {
    hide FourDigits, EncodedTail;
    ok := WriteFourDigit(t.year, out);
    if !ok { return; }
    ok := WriteTail(t, out, 4);
  }

  method EncodeUTCTime(t: Time, out: array<byte>) returns (ok: bool)
    requires out.Length == 13
    modifies out
    ensures ok <==> EncodedUTCTime(t).Some?
    ensures ok ==> EncodedUTCTime(t) == Some(out[..])
  {
    hide TwoDigits, EncodedTail;
    if !(1950 <= t.year < 2050) {
      return false;
    }
    var year := t.year - 1900;
    if year >= 100 {
      year := year - 100;
    }
    assert year == t.year % 100;
    ok := WriteTwoDigit(year, out, 0);
    if !ok { return; }
    assert out[..2] == out[0..2];
    ok := WriteTail(t, out, 2);
  }

  // ----- round trips

  lemma TailInverse(b: Bytes, t: Time)
    requires |b| == 11 && TailEncodable(t)
    ensures b == EncodedTail(t) <==> IsTail(b) && TailTime(t.year, b) == t
  {
    TwoDigitsInverse(b[0..2], t.month);
    TwoDigitsInverse(b[2..4], t.day);
    TwoDigitsInverse(b[4..6], t.hours);
    TwoDigitsInverse(b[6..8], t.minutes);
    TwoDigitsInverse(b[8..10], t.seconds);
    assert b[..10] == b[0..2] + b[2..4] + b[4..6] + b[6..8] + b[8..10];
    assert b == b[..10] + [b[10]];
    hide TwoDigits, Decimal, IsDigits;
    var e := EncodedTail(t);
    assert e[0..2] == TwoDigits(t.month) && e[2..4] == TwoDigits(t.day) && e[4..6] == TwoDigits(t.hours);
    assert e[6..8] == TwoDigits(t.minutes) && e[8..10] == TwoDigits(t.seconds) && e[10] == ZULU;
  }

  lemma ValidEncodable(t: Time)
    requires IsValid(t)
    ensures TailEncodable(t)
  {
  }

  /** The GeneralizedTime codec: a byte string parses to a time exactly when the time is
    * valid and encodes to that byte string. */
  lemma GeneralizedTimeRoundTrip(b: Bytes, t: Time)
    ensures ParsedGeneralizedTime(b) == Some(t) <==> IsValid(t) && EncodedGeneralizedTime(t) == Some(b)
  {
    if |b| == 15 && IsValid(t) {
      ValidEncodable(t);
      assert b == b[..4] + b[4..];
      TailInverse(b[4..], t);
      hide IsValid, FourDigits, EncodedTail, TailTime;
      if IsDigits(b[..4]) { YearRange(b[..4]); }
      if t.year < 10000 {
        FourDigitsInverse(b[..4], t.year);
        var e := FourDigits(t.year) + EncodedTail(t);
        assert e[..4] == FourDigits(t.year) && e[4..] == EncodedTail(t);
      }
      TailYear(b[4..]);
    }
  }

  lemma TailYear(tail: Bytes)
    ensures IsTail(tail) ==> forall y: nat :: TailTime(y, tail).year == y
  {
  }

  lemma UtcYearInverse(v: nat, y: nat)
    requires v < 100
    ensures UtcYear(v) == y <==> 1950 <= y < 2050 && y % 100 == v
  {
  }

  /** The UTCTime codec, likewise. */
  lemma UTCTimeRoundTrip(b: Bytes, t: Time)
    ensures ParsedUTCTime(b) == Some(t) <==> IsValid(t) && EncodedUTCTime(t) == Some(b)
  {
    if |b| == 13 && IsValid(t) {
      ValidEncodable(t);
      assert b == b[..2] + b[2..];
      TailInverse(b[2..], t);
      TailYear(b[2..]);
      if IsDigits(b[..2]) {
        PairRange(b[..2]);
        UtcYearInverse(Decimal(b[..2]), t.year);
      }
      hide IsValid, TwoDigits, EncodedTail, UtcYear, IsDigits, Decimal, IsTail, TailTime;
      if 1950 <= t.year < 2050 {
        TwoDigitsInverse(b[..2], t.year % 100);
        var e := TwoDigits(t.year % 100) + EncodedTail(t);
        assert e[..2] == TwoDigits(t.year % 100) && e[2..] == EncodedTail(t);
      }
    }
  }

  // ----- order

  /** The lexicographic order of octet strings. */
  predicate LexLess(a: Bytes, b: Bytes) {
    if b == [] then false
    else if a == [] then true
    else a[0] < b[0] || (a[0] == b[0] && LexLess(a[1..], b[1..]))
  }

  /** operator< on Input */
  method InputLess(lhs: Bytes, rhs: Bytes) returns (less: bool)
    ensures less <==> LexLess(lhs, rhs)
  {
    var i := 0;
    while i != |lhs| && i != |rhs|
      invariant i <= |lhs| && i <= |rhs|
      invariant LexLess(lhs, rhs) <==> LexLess(lhs[i..], rhs[i..])
      decreases |lhs| - i
    {
      if lhs[i] < rhs[i] {
        return true;
      } else if rhs[i] < lhs[i] {
        return false;
      }
      i := i + 1;
    }
    return i != |rhs|;
  }

  lemma {:induction false} LexConcat(a: Bytes, b: Bytes, c: Bytes, d: Bytes)
    requires |a| == |c|
    ensures LexLess(a + b, c + d) <==> LexLess(a, c) || (a == c && LexLess(b, d))
  {
    if a == [] {
      assert a + b == b && c + d == d;
    } else {
      LexConcat(a[1..], b, c[1..], d);
      assert (a + b)[1..] == a[1..] + b && (c + d)[1..] == c[1..] + d;
      assert a == [a[0]] + a[1..] && c == [c[0]] + c[1..];
    }
  }

  lemma TwoDigitsOrder(v: nat, w: nat)
    requires v < 100 && w < 100
    ensures LexLess(TwoDigits(v), TwoDigits(w)) <==> v < w
    ensures TwoDigits(v) == TwoDigits(w) <==> v == w
  {
    var a, b := TwoDigits(v), TwoDigits(w);
    assert a[1..][1..] == [] && b[1..][1..] == [];
    assert LexLess(a[1..], b[1..]) <==> v % 10 < w % 10;
  }

  lemma FourDigitsOrder(v: nat, w: nat)
    requires v < 10000 && w < 10000
    ensures LexLess(FourDigits(v), FourDigits(w)) <==> v < w
    ensures FourDigits(v) == FourDigits(w) <==> v == w
  {
    TwoDigitsOrder(v / 100, w / 100);
    TwoDigitsOrder(v % 100, w % 100);
    LexConcat(TwoDigits(v / 100), TwoDigits(v % 100), TwoDigits(w / 100), TwoDigits(w % 100));
    hide TwoDigits, LexLess;
    if FourDigits(v) == FourDigits(w) {
      assert FourDigits(v)[..2] == TwoDigits(v / 100) && FourDigits(v)[2..] == TwoDigits(v % 100);
      assert FourDigits(w)[..2] == TwoDigits(w / 100) && FourDigits(w)[2..] == TwoDigits(w % 100);
    }
  }

  /** One two-digit field in front of `x`. */
  lemma FieldOrder(v: nat, x: Bytes, w: nat, y: Bytes)
    requires v < 100 && w < 100
    ensures LexLess(TwoDigits(v) + x, TwoDigits(w) + y) <==> v < w || (v == w && LexLess(x, y))
  {
    TwoDigitsOrder(v, w);
    LexConcat(TwoDigits(v), x, TwoDigits(w), y);
  }

  function TailFrom(t: Time): Bytes
    requires TailEncodable(t)
  {
    TwoDigits(t.month) + (TwoDigits(t.day) + (TwoDigits(t.hours) + (TwoDigits(t.minutes) + (TwoDigits(t.seconds) + [ZULU]))))
  }

  lemma TailFromSame(t: Time)
    requires TailEncodable(t)
    ensures TailFrom(t) == EncodedTail(t)
  {
    hide TwoDigits;
  }

  /** Among encodable times, earlier means lexicographically smaller GeneralizedTime bytes. */
  lemma OrderPreserved(a: Time, b: Time)
    requires EncodedGeneralizedTime(a).Some? && EncodedGeneralizedTime(b).Some?
    ensures Less(a, b) <==> LexLess(EncodedGeneralizedTime(a).value, EncodedGeneralizedTime(b).value)
  {
    TailFromSame(a);
    TailFromSame(b);
    FourDigitsOrder(a.year, b.year);
    LexConcat(FourDigits(a.year), TailFrom(a), FourDigits(b.year), TailFrom(b));
    hide TwoDigits, FourDigits, EncodedTail;
    var a5, b5 := TwoDigits(a.seconds) + [ZULU], TwoDigits(b.seconds) + [ZULU];
    FieldOrder(a.seconds, [ZULU], b.seconds, [ZULU]);
    assert !LexLess([ZULU], [ZULU]);
    hide LexLess;
    var a4, b4 := TwoDigits(a.minutes) + a5, TwoDigits(b.minutes) + b5;
    FieldOrder(a.minutes, a5, b.minutes, b5);
    var a3, b3 := TwoDigits(a.hours) + a4, TwoDigits(b.hours) + b4;
    FieldOrder(a.hours, a4, b.hours, b4);
    FieldOrder(a.day, a3, b.day, b3);
    FieldOrder(a.month, TwoDigits(a.day) + a3, b.month, TwoDigits(b.day) + b3);
  }
}
