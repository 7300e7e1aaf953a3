/** BIT STRING contents, pki/parse_values.cc (sections 8.6.2 and 11.2.1 of ITU-T X.690). */
module BitStrings {
  import opened Basics
  import opened Netmask

  datatype BitString = BitString(bytes: Octets, unused: nat)

  function LowBits(n: nat): bv8
    requires 1 <= n <= 7
  {
    0xFF >> (8 - n)
  }

  /** ParseBitString */
  function ParseBitString(s: Octets): Option<BitString> {
    if s == [] || s[0] > 7 then None
    else
      var unused, bytes := s[0] as nat, s[1..];
      if unused > 0 && (bytes == [] || LowBits(unused) & bytes[|bytes| - 1] != 0) then None
      else Some(BitString(bytes, unused))
  }

  /** BitString::AssertsBit, which does not look at the number of unused bits. */
  predicate AssertsBit(bs: BitString, i: nat) {
    i / 8 < |bs.bytes| && bs.bytes[i / 8] & (1 << (7 - (i - 8 * (i / 8)))) != 0
  }

  /** The bits that are in use, in order. */
  function UsedBits(bs: BitString): seq<bool>
    requires bs.unused <= 8 * |bs.bytes|
  {
    seq(8 * |bs.bytes| - bs.unused, i requires 0 <= i < 8 * |bs.bytes| - bs.unused => Bit(bs.bytes, i))
  }

  lemma ShiftedBit(b: bv8, i: nat)
    requires i < 8
    ensures b & (1 << (7 - i)) != 0 <==> OctetBit(b, i)
  {
    if i == 0 { assert (1 as bv8) << 7 == 0x80; }
    else if i == 1 { assert (1 as bv8) << 6 == 0x40; }
    else if i == 2 { assert (1 as bv8) << 5 == 0x20; }
    else if i == 3 { assert (1 as bv8) << 4 == 0x10; }
    else if i == 4 { assert (1 as bv8) << 3 == 0x08; }
    else if i == 5 { assert (1 as bv8) << 2 == 0x04; }
    else if i == 6 { assert (1 as bv8) << 1 == 0x02; }
    else { assert (1 as bv8) << 0 == 0x01; }
  }

  /** Each mask is the one before it and one more bit. */
  lemma MaskSteps(b: bv8)
    ensures b & 0x03 == 0 <==> b & 0x01 == 0 && b & 0x02 == 0
    ensures b & 0x07 == 0 <==> b & 0x03 == 0 && b & 0x04 == 0
    ensures b & 0x0F == 0 <==> b & 0x07 == 0 && b & 0x08 == 0
    ensures b & 0x1F == 0 <==> b & 0x0F == 0 && b & 0x10 == 0
    ensures b & 0x3F == 0 <==> b & 0x1F == 0 && b & 0x20 == 0
    ensures b & 0x7F == 0 <==> b & 0x3F == 0 && b & 0x40 == 0
  {
  }

  function Mask(n: nat): bv8
    requires 1 <= n <= 7
  {
    if n == 1 then 0x01 else if n == 2 then 0x03 else if n == 3 then 0x07 else if n == 4 then 0x0F
    else if n == 5 then 0x1F else if n == 6 then 0x3F else 0x7F
  }

  lemma LowBitsMask(n: nat)
    requires 1 <= n <= 7
    ensures LowBits(n) == Mask(n)
  {
    assert (0xFF as bv8) >> 7 == 0x01 && (0xFF as bv8) >> 6 == 0x03 && (0xFF as bv8) >> 5 == 0x07;
    assert (0xFF as bv8) >> 4 == 0x0F && (0xFF as bv8) >> 3 == 0x1F && (0xFF as bv8) >> 2 == 0x3F;
    assert (0xFF as bv8) >> 1 == 0x7F;
  }

  lemma {:induction false} MaskClear(b: bv8, n: nat)
    requires 1 <= n <= 7
    ensures b & Mask(n) == 0 <==> forall i: nat | 8 - n <= i < 8 :: !OctetBit(b, i)
  {
    MaskSteps(b);
    if n > 1 {
      MaskClear(b, n - 1);
      assert b & Mask(n) == 0 <==> b & Mask(n - 1) == 0 && !OctetBit(b, 8 - n);
    } else {
      assert OctetBit(b, 7) <==> b & 0x01 != 0;
    }
  }

  /** The check that parsing makes: an unused bit is never one. */
  lemma UnusedClear(s: Octets, i: nat)
    requires ParseBitString(s).Some?
    requires var bs := ParseBitString(s).value; 8 * |bs.bytes| - bs.unused <= i < 8 * |bs.bytes|
    ensures !Bit(ParseBitString(s).value.bytes, i)
  {
    var bs := ParseBitString(s).value;
    LowBitsMask(bs.unused);
    MaskClear(bs.bytes[|bs.bytes| - 1], bs.unused);
    assert i / 8 == |bs.bytes| - 1 && 8 - bs.unused <= i % 8;
  }

  /** Ignoring the unused count is sound: a bit is asserted exactly when it is among the used
    * bits and is one there. */
  lemma AssertsUsedBit(s: Octets, i: nat)
    requires ParseBitString(s).Some?
    ensures var bs := ParseBitString(s).value;
            && bs.unused <= 8 * |bs.bytes|
            && (AssertsBit(bs, i) <==> i < |UsedBits(bs)| && UsedBits(bs)[i])
  {
    var bs := ParseBitString(s).value;
    if i < 8 * |bs.bytes| {
      assert i / 8 < |bs.bytes| && i - 8 * (i / 8) == i % 8;
      ShiftedBit(bs.bytes[i / 8], i % 8);
      if i >= |UsedBits(bs)| { UnusedClear(s, i); }
    }
  }

  lemma PaddedBit(s: Octets, i: nat)
    requires ParseBitString(s).Some? && i < 8 * |ParseBitString(s).value.bytes|
    ensures var bs := ParseBitString(s).value;
            && bs.unused <= 8 * |bs.bytes|
            && (Bit(bs.bytes, i) <==> i < |UsedBits(bs)| && UsedBits(bs)[i])
  {
    if i >= |UsedBits(ParseBitString(s).value)| { UnusedClear(s, i); }
  }

  /** The encoding is canonical: two accepted inputs with the same bits are the same input. */
  lemma ParseBitStringInjective(s: Octets, t: Octets)
    requires ParseBitString(s).Some? && ParseBitString(t).Some?
    requires var a, b := ParseBitString(s).value, ParseBitString(t).value;
             a.unused <= 8 * |a.bytes| && b.unused <= 8 * |b.bytes| && UsedBits(a) == UsedBits(b)
    ensures s == t
  {
    var a, b := ParseBitString(s).value, ParseBitString(t).value;
    UnusedRange(s);
    UnusedRange(t);
    assert 8 * |a.bytes| - a.unused == 8 * |b.bytes| - b.unused;
    assert |a.bytes| == |b.bytes| && a.unused == b.unused;
    forall k | 0 <= k < |a.bytes| ensures a.bytes[k] == b.bytes[k] {
      SameOctet(s, t, k);
    }
    assert a.bytes == b.bytes;
    hide ParseBitString, UsedBits;
  }

  lemma UnusedRange(s: Octets)
    requires ParseBitString(s).Some?
    ensures var bs := ParseBitString(s).value;
            bs.unused <= 7 && s != [] && s[0] as nat == bs.unused && s == [s[0]] + bs.bytes
  {
  }

  lemma SameOctet(s: Octets, t: Octets, k: nat)
    requires ParseBitString(s).Some? && ParseBitString(t).Some?
    requires var a, b := ParseBitString(s).value, ParseBitString(t).value;
             && a.unused <= 8 * |a.bytes| && b.unused <= 8 * |b.bytes| && UsedBits(a) == UsedBits(b)
             && k < |a.bytes| && k < |b.bytes|
    ensures ParseBitString(s).value.bytes[k] == ParseBitString(t).value.bytes[k]
  {
    hide ParseBitString, UsedBits, OctetBit;
    var a, b := ParseBitString(s).value, ParseBitString(t).value;
    forall i: nat | i < 8 ensures OctetBit(a.bytes[k], i) <==> OctetBit(b.bytes[k], i) {
      PaddedBit(s, 8 * k + i);
      PaddedBit(t, 8 * k + i);
      assert (8 * k + i) / 8 == k && (8 * k + i) % 8 == i;
    }
    OctetEqual(a.bytes[k], b.bytes[k]);
  }
}
