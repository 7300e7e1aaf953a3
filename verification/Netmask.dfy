/** IP address ranges, pki/ip_util.cc.  Octets are bit vectors here because the code
  * works on their bits.
  */
module Netmask {

  type Octets = seq<bv8>

  const IPV4_ADDRESS_SIZE: nat := 4
  const IPV6_ADDRESS_SIZE: nat := 16

  // ----- bits, most significant first

  predicate OctetBit(b: bv8, i: nat)
    requires i < 8
  {
    if i == 0 then b & 0x80 != 0
    else if i == 1 then b & 0x40 != 0
    else if i == 2 then b & 0x20 != 0
    else if i == 3 then b & 0x10 != 0
    else if i == 4 then b & 0x08 != 0
    else if i == 5 then b & 0x04 != 0
    else if i == 6 then b & 0x02 != 0
    else b & 0x01 != 0
  }

  predicate Bit(s: Octets, i: nat)
    requires i < 8 * |s|
  {
    OctetBit(s[i / 8], i % 8)
  }

  /** The octet with `j` ones followed by zeros. */
  function Ones(j: nat): bv8
    requires j <= 8
  {
    if j == 0 then 0x00
    else if j == 1 then 0x80
    else if j == 2 then 0xC0
    else if j == 3 then 0xE0
    else if j == 4 then 0xF0
    else if j == 5 then 0xF8
    else if j == 6 then 0xFC
    else if j == 7 then 0xFE
    else 0xFF
  }

  /** How many of the first `k` bits fall into octet `i`. */
  function Share(k: nat, i: nat): nat {
    if k <= 8 * i then 0 else if k >= 8 * i + 8 then 8 else k - 8 * i
  }

  /** `k` one bits, then zero bits only. */
  ghost predicate PrefixMask(mask: Octets, k: nat) {
    k <= 8 * |mask| && forall i: nat | i < 8 * |mask| :: Bit(mask, i) <==> i < k
  }

  lemma OctetEqual(a: bv8, b: bv8)
    requires forall i: nat | i < 8 :: OctetBit(a, i) <==> OctetBit(b, i)
    ensures a == b
  {
    assert OctetBit(a, 0) == OctetBit(b, 0) && OctetBit(a, 1) == OctetBit(b, 1);
    assert OctetBit(a, 2) == OctetBit(b, 2) && OctetBit(a, 3) == OctetBit(b, 3);
    assert OctetBit(a, 4) == OctetBit(b, 4) && OctetBit(a, 5) == OctetBit(b, 5);
    assert OctetBit(a, 6) == OctetBit(b, 6) && OctetBit(a, 7) == OctetBit(b, 7);
  }

  lemma PrefixOctets(mask: Octets, k: nat)
    requires k <= 8 * |mask|
    ensures PrefixMask(mask, k) <==> forall i | 0 <= i < |mask| :: mask[i] == Ones(Share(k, i))
  {
    if PrefixMask(mask, k) {
      forall i | 0 <= i < |mask| ensures mask[i] == Ones(Share(k, i)) {
        forall j: nat | j < 8 ensures OctetBit(mask[i], j) <==> OctetBit(Ones(Share(k, i)), j) {
          assert Bit(mask, 8 * i + j) <==> 8 * i + j < k;
        }
        OctetEqual(mask[i], Ones(Share(k, i)));
      }
    }
    if forall i | 0 <= i < |mask| :: mask[i] == Ones(Share(k, i)) {
      forall i: nat | i < 8 * |mask| ensures Bit(mask, i) <==> i < k {
        assert mask[i / 8] == Ones(Share(k, i / 8));
      }
    }
  }

  /** The code's test that an octet is ones followed by zeros. */
  lemma OnesTest(b: bv8)
    ensures (!b) & (!b + 1) == 0 <==> exists j: nat :: j <= 8 && b == Ones(j)
  {
    if (!b) & (!b + 1) == 0 {
      assert b == 0x00 || b == 0x80 || b == 0xC0 || b == 0xE0 || b == 0xF0 || b == 0xF8 || b == 0xFC || b == 0xFE || b == 0xFF;
      assert b == Ones(0) || b == Ones(1) || b == Ones(2) || b == Ones(3) || b == Ones(4)
          || b == Ones(5) || b == Ones(6) || b == Ones(7) || b == Ones(8);
    }
  }

  /** A netmask: an IPv4 or IPv6 sized prefix mask. */
  ghost predicate ValidNetmask(mask: Octets) {
    (|mask| == IPV4_ADDRESS_SIZE || |mask| == IPV6_ADDRESS_SIZE) && exists k: nat :: PrefixMask(mask, k)
  }

  method IsValidNetmask(mask: Octets) returns (valid: bool)
    ensures valid <==> ValidNetmask(mask)
  {
    if |mask| != IPV4_ADDRESS_SIZE && |mask| != IPV6_ADDRESS_SIZE {
      return false;
    }
    for i := 0 to |mask|
      invariant forall h | 0 <= h < i :: mask[h] == 0xFF
    {
      var b := mask[i];
      if b != 0xFF {
        OnesTest(b);
        var inv := !b;
        if inv & (inv + 1) != 0 {
          forall k: nat ensures !PrefixMask(mask, k) {
            if k <= 8 * |mask| { PrefixOctets(mask, k); }
          }
          return false;
        }
        for j := i + 1 to |mask|
          invariant forall h | i < h < j :: mask[h] == 0
        {
          if mask[j] != 0 {
            forall k: nat ensures !PrefixMask(mask, k) {
              if k <= 8 * |mask| { PrefixOctets(mask, k); }
            }
            return false;
          }
        }
        ghost var ones: nat :| ones <= 8 && b == Ones(ones);
        PrefixOctets(mask, 8 * i + ones);
        return true;
      }
    }
    PrefixOctets(mask, 8 * |mask|);
    return true;
  }

  // ----- matching

  method IPAddressMatchesWithNetmask(addr1: Octets, addr2: Octets, mask: Octets) returns (matches: bool)
    ensures matches <==> Matches(addr1, addr2, mask)
  {
    if |addr1| != |addr2| || |addr1| != |mask| {
      return false;
    }
    for i := 0 to |addr1|
      invariant forall h | 0 <= h < i :: addr1[h] & mask[h] == addr2[h] & mask[h]
    {
      if addr1[i] & mask[i] != addr2[i] & mask[i] {
        return false;
      }
    }
    return true;
  }

  predicate Matches(addr1: Octets, addr2: Octets, mask: Octets) {
    && |addr1| == |addr2| == |mask|
    && forall i | 0 <= i < |addr1| :: addr1[i] & mask[i] == addr2[i] & mask[i]
  }

  ghost predicate SamePrefix(a: Octets, b: Octets, k: nat)
    requires |a| == |b|
  {
    forall i: nat | i < 8 * |a| && i < k :: Bit(a, i) <==> Bit(b, i)
  }

  lemma MaskedOctet(a: bv8, b: bv8, j: nat)
    requires j <= 8
    ensures a & Ones(j) == b & Ones(j) <==> forall i: nat | i < j :: OctetBit(a, i) <==> OctetBit(b, i)
  {
    hide OctetBit, Ones;
    var x, y := a & Ones(j), b & Ones(j);
    forall i: nat | i < 8 ensures OctetBit(x, i) <==> OctetBit(a, i) && i < j {
      MaskBit(a, j, i);
    }
    forall i: nat | i < 8 ensures OctetBit(y, i) <==> OctetBit(b, i) && i < j {
      MaskBit(b, j, i);
    }
    if x == y {
      forall i: nat | i < j ensures OctetBit(a, i) <==> OctetBit(b, i) {
        assert OctetBit(x, i) <==> OctetBit(y, i);
      }
    }
    if forall i: nat | i < j :: OctetBit(a, i) <==> OctetBit(b, i) {
      OctetEqual(x, y);
    }
  }

  lemma MaskBit(a: bv8, j: nat, i: nat)
    requires j <= 8 && i < 8
    ensures OctetBit(a & Ones(j), i) <==> OctetBit(a, i) && i < j
  {
  }

  /** Under a mask of `k` ones an address matches exactly when its first `k` bits agree. */
  lemma MatchIsPrefix(a: Octets, b: Octets, mask: Octets, k: nat)
    requires |a| == |b| == |mask| && PrefixMask(mask, k)
    ensures Matches(a, b, mask) <==> SamePrefix(a, b, k)
  {
    PrefixOctets(mask, k);
    hide PrefixMask, OctetBit, Ones, Bit, Share;
    if Matches(a, b, mask) {
      forall i: nat | i < 8 * |a| && i < k ensures Bit(a, i) <==> Bit(b, i) {
        PrefixBit(a[i / 8], b[i / 8], k, i);
        BitIs(a, i);
        BitIs(b, i);
      }
    }
    if SamePrefix(a, b, k) {
      forall i | 0 <= i < |a| ensures a[i] & mask[i] == b[i] & mask[i] {
        PrefixOctet(a, b, k, i);
      }
    }
  }

  lemma BitIs(s: Octets, i: nat)
    requires i < 8 * |s|
    ensures Bit(s, i) <==> OctetBit(s[i / 8], i % 8)
  {
  }

  lemma PrefixBit(a: bv8, b: bv8, k: nat, i: nat)
    requires i < k && a & Ones(Share(k, i / 8)) == b & Ones(Share(k, i / 8))
    ensures OctetBit(a, i % 8) <==> OctetBit(b, i % 8)
  {
    hide OctetBit, Ones;
    MaskedOctet(a, b, Share(k, i / 8));
    assert i % 8 < Share(k, i / 8);
  }

  lemma PrefixOctet(a: Octets, b: Octets, k: nat, i: nat)
    requires |a| == |b| && SamePrefix(a, b, k) && i < |a|
    ensures a[i] & Ones(Share(k, i)) == b[i] & Ones(Share(k, i))
  {
    hide OctetBit, Ones;
    forall j: nat | j < Share(k, i) ensures OctetBit(a[i], j) <==> OctetBit(b[i], j) {
      assert Bit(a, 8 * i + j) <==> Bit(b, 8 * i + j);
      assert (8 * i + j) / 8 == i && (8 * i + j) % 8 == j;
    }
    MaskedOctet(a[i], b[i], Share(k, i));
  }

  /** Two ranges of the same size are nested one way or the other, or share no address. */
  lemma RangesNestedOrDisjoint(addr1: Octets, mask1: Octets, addr2: Octets, mask2: Octets)
    requires ValidNetmask(mask1) && ValidNetmask(mask2) && |addr1| == |mask1| == |addr2| == |mask2|
    ensures || (forall x :: Matches(x, addr1, mask1) ==> Matches(x, addr2, mask2))
            || (forall x :: Matches(x, addr2, mask2) ==> Matches(x, addr1, mask1))
            || (forall x :: !(Matches(x, addr1, mask1) && Matches(x, addr2, mask2)))
  {
    var k1: nat :| PrefixMask(mask1, k1);
    var k2: nat :| PrefixMask(mask2, k2);
    if k1 <= k2 {
      PrefixOrder(addr1, mask1, k1, addr2, mask2, k2);
    } else {
      PrefixOrder(addr2, mask2, k2, addr1, mask1, k1);
    }
  }

  lemma PrefixOrder(a: Octets, m: Octets, k: nat, b: Octets, n: Octets, l: nat)
    requires PrefixMask(m, k) && PrefixMask(n, l) && k <= l && |a| == |m| == |b| == |n|
    ensures || (forall x :: Matches(x, b, n) ==> Matches(x, a, m))
            || (forall x :: !(Matches(x, a, m) && Matches(x, b, n)))
  {
    forall x: Octets | |x| == |a|
      ensures Matches(x, a, m) <==> SamePrefix(x, a, k)
      ensures Matches(x, b, n) <==> SamePrefix(x, b, l)
    {
      MatchIsPrefix(x, a, m, k);
      MatchIsPrefix(x, b, n, l);
    }
    hide PrefixMask, Bit;
    if SamePrefix(a, b, k) {
      assert forall x: Octets :: Matches(x, b, n) ==> Matches(x, a, m);
    } else {
      forall x: Octets | |x| == |a| ensures SamePrefix(x, a, k) && SamePrefix(x, b, l) ==> SamePrefix(a, b, k) {
      }
    }
  }
}
