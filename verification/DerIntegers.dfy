/** Unsigned DER INTEGERs, pki/parse_values.cc, against section 8.3 of ITU-T X.690. */
module DerIntegers {
  import opened Basics

  // ----- two's complement

  function Pow256(n: nat): (p: nat)
    ensures p > 0
  {
    if n == 0 then 1 else 256 * Pow256(n - 1)
  }

  /** Big-endian value. */
  function Value(b: Bytes): nat
    decreases |b|
  {
    if b == [] then 0 else 256 * Value(b[..|b| - 1]) + b[|b| - 1]
  }

  /** The integer a content octet string denotes (X.690, section 8.3.3). */
  function TwosComplement(b: Bytes): int
    requires b != []
  {
    if b[0] >= 128 then Value(b) - Pow256(|b|) else Value(b)
  }

  /** The shortest octet strings are the only DER ones (section 8.3.2). */
  ghost predicate MinimalEncoding(b: Bytes, v: int) {
    && b != [] && TwosComplement(b) == v
    && forall c: Bytes | c != [] && TwosComplement(c) == v :: |b| <= |c|
  }

  // ----- the parser

  /** CBS_is_valid_asn1_integer */
  predicate IsValidInteger(b: Bytes) {
    && b != []
    && (|b| > 1 ==> !(b[0] == 0 && b[1] < 128) && !(b[0] == 255 && b[1] >= 128))
  }

  predicate IsNegative(b: Bytes)
    requires b != []
  {
    b[0] >= 128
  }

  function GetUnsignedIntegerLength(b: Bytes): nat {
    if b == [] then 0 else if b[0] == 0 && |b| > 1 then |b| - 1 else |b|
  }

  /** The shift loop works modulo 2^64; its invariant shows that nothing is shifted out. */
  method ParseUint64(b: Bytes) returns (out: Option<nat>)
    ensures out == Parsed(b)
  {
    if !IsValidInteger(b) || IsNegative(b) {
      return None;
    }
    if GetUnsignedIntegerLength(b) > 8 {
      return None;
    }
    var value := 0;
    for i := 0 to |b|
      invariant value == Value(b[..i])
    {
      ShiftFits(b, i);
      value := (value * 256) % U64 + b[i];
      assert b[..i + 1][..i] == b[..i];
    }
    assert b[..|b|] == b;
    return Some(value);
  }

  function Parsed(b: Bytes): Option<nat> {
    if IsValidInteger(b) && !IsNegative(b) && GetUnsignedIntegerLength(b) <= 8 then Some(Value(b)) else None
  }

  // ----- proofs

  lemma {:induction false} ValueBound(b: Bytes)
    ensures Value(b) < Pow256(|b|)
    decreases |b|
  {
    if b != [] { ValueBound(b[..|b| - 1]); }
  }

  lemma {:induction false} ValueHead(b: Bytes)
    requires b != []
    ensures Value(b) == b[0] * Pow256(|b| - 1) + Value(b[1..])
    decreases |b|
  {
    if |b| > 1 {
      var n := |b| - 1;
      ValueHead(b[..n]);
      assert b[..n][1..] == b[1..][..n - 1];
    } else {
      assert b[..0] == [] && b[1..] == [];
    }
  }

  lemma PowMonotone(m: nat, n: nat)
    requires m <= n
    ensures Pow256(m) <= Pow256(n)
    decreases n
  {
    if m < n { PowMonotone(m, n - 1); }
  }

  lemma Pow8()
    ensures Pow256(8) == U64 && Pow256(7) * 256 == U64
  {
    assert Pow256(1) == 256 && Pow256(2) == 65536 && Pow256(3) == 0x100_0000;
    assert Pow256(4) == 0x1_0000_0000 && Pow256(5) == 0x100_0000_0000;
    assert Pow256(6) == 0x1_0000_0000_0000;
  }

  /** Before the last octet is added there are at most 56 significant bits. */
  lemma ShiftFits(b: Bytes, i: nat)
    requires i < |b| && b != [] && GetUnsignedIntegerLength(b) <= 8
    ensures Value(b[..i]) * 256 < U64
  {
    Pow8();
    ValueBound(b[..i]);
    if i <= 7 {
      PowMonotone(i, 7);
    } else {
      ValueHead(b[..i]);
      ValueBound(b[..i][1..]);
    }
  }

  /** The DER contents of a natural number. */
  function Encode(v: nat): (b: Bytes)
    ensures b != []
  {
    if v < 128 then [v] else Encode(v / 256) + [v % 256]
  }

  lemma {:induction false} EncodeValid(v: nat)
    ensures IsValidInteger(Encode(v)) && !IsNegative(Encode(v)) && Value(Encode(v)) == v
    ensures Encode(v)[0] == 0 && |Encode(v)| > 1 ==> Encode(v)[1] >= 128
  {
    if v >= 128 {
      EncodeValid(v / 256);
      var p := Encode(v / 256);
      assert (p + [v % 256])[..|p|] == p;
    } else {
      assert [v][..0] == [];
    }
  }

  lemma {:induction false} ValidIsEncoded(b: Bytes)
    requires IsValidInteger(b) && !IsNegative(b)
    ensures b == Encode(Value(b))
    decreases |b|
  {
    if |b| == 1 {
      assert b[..0] == [];
    } else {
      var n := |b| - 1;
      ValidIsEncoded(b[..n]);
      if Value(b[..n]) == 0 {
        assert b[..n] == [0];
      }
      assert b == b[..n] + [b[n]];
    }
  }

  lemma {:induction false} ValueAtLeast(b: Bytes, k: nat)
    requires b != [] && k < |b| && b[k] > 0
    ensures Value(b) >= b[k] * Pow256(|b| - 1 - k)
    decreases k
  {
    ValueHead(b);
    if k > 0 { ValueAtLeast(b[1..], k - 1); }
  }

  /** The length test is the range test. */
  lemma LengthIsRange(b: Bytes)
    requires IsValidInteger(b) && !IsNegative(b)
    ensures GetUnsignedIntegerLength(b) <= 8 <==> Value(b) < U64
  {
    Pow8();
    ValueHead(b);
    if GetUnsignedIntegerLength(b) <= 8 {
      if b[0] == 0 && |b| > 1 {
        ValueBound(b[1..]);
        PowMonotone(|b| - 1, 8);
      } else {
        ValueBound(b);
        PowMonotone(|b|, 8);
      }
    } else if b[0] == 0 {
      ValueAtLeast(b, 1);
      PowMonotone(8, |b| - 2 + 1);
      TopBit(b[1], |b| - 2);
    } else {
      ValueAtLeast(b, 0);
      PowMonotone(8, |b| - 1);
    }
  }

  lemma TopBit(x: nat, n: nat)
    requires x >= 128 && n >= 8
    ensures x * Pow256(n) >= U64
  {
    Pow8();
    PowMonotone(8, n);
  }

  lemma EncodeMinimal(c: Bytes)
    requires c != [] && c[0] < 128
    ensures |Encode(Value(c))| <= |c|
    decreases |c|
  {
    if |c| > 1 {
      if c[0] == 0 && c[1] < 128 {
        ValueHead(c);
        EncodeMinimal(c[1..]);
      } else {
        ValidIsEncoded(c);
      }
    } else {
      ValidIsEncoded(c);
    }
  }

  lemma NegativeValue(c: Bytes)
    requires c != [] && c[0] >= 128
    ensures TwosComplement(c) < 0
  {
    ValueBound(c);
  }

  /** The minimal encoding of a natural number is unique, and is `Encode`. */
  lemma MinimalIsEncode(b: Bytes, v: nat)
    ensures MinimalEncoding(b, v) <==> b == Encode(v)
  {
    EncodeValid(v);
    forall c: Bytes | c != [] && TwosComplement(c) == v ensures |Encode(v)| <= |c| && (|c| == |Encode(v)| ==> c == Encode(v)) {
      if c[0] >= 128 { NegativeValue(c); }
      EncodeMinimal(c);
      if |c| == |Encode(v)| { ShortestIsEncode(c); }
    }
  }

  lemma ShortestIsEncode(c: Bytes)
    requires c != [] && c[0] < 128 && |c| == |Encode(Value(c))|
    ensures c == Encode(Value(c))
  {
    if |c| > 1 && c[0] == 0 && c[1] < 128 {
      ValueHead(c);
      EncodeMinimal(c[1..]);
      assert false;
    } else {
      ValidIsEncoded(c);
    }
  }

  /** ParseUint64 accepts exactly the minimal two's complement encodings of the integers in
    * [0, 2^64), of whatever length, and returns the integer. */
  lemma ParseUint64Exact(b: Bytes, v: nat)
    ensures Parsed(b) == Some(v) <==> v < U64 && MinimalEncoding(b, v)
  {
    MinimalIsEncode(b, v);
    EncodeValid(v);
    LengthIsRange(Encode(v));
    if IsValidInteger(b) && !IsNegative(b) {
      ValidIsEncoded(b);
      LengthIsRange(b);
    }
  }

  lemma ParseUint64Injective(b: Bytes, c: Bytes)
    requires Parsed(b).Some? && Parsed(b) == Parsed(c)
    ensures b == c
  {
    ValidIsEncoded(b);
    ValidIsEncoded(c);
  }
}
