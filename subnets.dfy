/**
 * Relations between addresses, masks and subnets: isValidMaskForSubnet,
 * isIpFromSubnet and getNextIp. Each reads its dotted quads with
 * getBinaryIp and compares bitsets.
 */
module Subnets {
  import opened Grammar
  import opened Codec
  import opened Masks

  /** isValidMaskForSubnet: !(~mask & subnet), no bit of the subnet lies outside the mask. */
  predicate IsValidMaskForSubnet(subnet: string, mask: string)
    requires IsDottedQuad(subnet) && IsDottedQuad(mask)
  {
    !Address(mask) & Address(subnet) == 0
  }

  /** isIpFromSubnet: !((subnet ^ ip) & mask), the address agrees with the subnet wherever the mask is set. */
  predicate IsIpFromSubnet(subnet: string, mask: string, ip: string)
    requires IsDottedQuad(subnet) && IsDottedQuad(mask) && IsDottedQuad(ip)
  {
    (Address(subnet) ^ Address(ip)) & Address(mask) == 0
  }

  /** getNextIp: bitsetToIp(getBinaryIp(ip) + 1). */
  function GetNextIp(ip: string): (r: string)
    requires IsDottedQuad(ip)
    ensures IsDottedQuad(r)
    ensures Address(r) == Address(ip) + 1
  {
    AddressOfRender(Address(ip) + 1);
    Render(Address(ip) + 1)
  }

  // Bitset facts.

  lemma {:induction false} CoveredBit(s: bv32, m: bv32, i: bv5)
    requires !m & s == 0 && Bit(s, i)
    ensures Bit(m, i)
  {
  }

  lemma {:induction false} UncoveredBit(s: bv32, m: bv32, j: bv5)
    requires TopAt(!m & s, j)
    ensures Bit(s, j) && !Bit(m, j)
  {
  }

  lemma {:induction false} AgreeingBit(s: bv32, m: bv32, a: bv32, i: bv5)
    requires (s ^ a) & m == 0 && Bit(m, i)
    ensures Bit(s, i) == Bit(a, i)
  {
  }

  lemma {:induction false} DisagreeingBit(s: bv32, m: bv32, a: bv32, j: bv5)
    requires TopAt((s ^ a) & m, j)
    ensures Bit(m, j) && Bit(s, j) != Bit(a, j)
  {
  }

  /** !(~m & s) holds exactly when every bit set in s is set in m. */
  lemma {:induction false} CoveredBits(s: bv32, m: bv32)
    ensures !m & s == 0 <==> forall i: bv5 :: Bit(s, i) ==> Bit(m, i)
  {
    if !m & s == 0 {
      forall i: bv5 | Bit(s, i)
        ensures Bit(m, i)
      {
        CoveredBit(s, m, i);
      }
    } else {
      HasTop(!m & s);
      var j :| TopAt(!m & s, j);
      UncoveredBit(s, m, j);
    }
  }

  /** !((s ^ a) & m) holds exactly when s and a agree on every bit set in m. */
  lemma {:induction false} AgreeingBits(s: bv32, m: bv32, a: bv32)
    ensures (s ^ a) & m == 0 <==> forall i: bv5 :: Bit(m, i) ==> (Bit(s, i) <==> Bit(a, i))
  {
    if (s ^ a) & m == 0 {
      forall i: bv5 | Bit(m, i)
        ensures Bit(s, i) <==> Bit(a, i)
      {
        AgreeingBit(s, m, a, i);
      }
    } else {
      HasTop((s ^ a) & m);
      var j :| TopAt((s ^ a) & m, j);
      DisagreeingBit(s, m, a, j);
    }
  }

  // Properties of the operations. Each if-and-only-if is put together from
  // its two directions, which are proved separately.

  lemma {:induction false} ValidMaskCovers(subnet: string, mask: string)
    requires IsDottedQuad(subnet) && IsDottedQuad(mask)
    ensures IsValidMaskForSubnet(subnet, mask) ==>
      forall i: bv5 :: Bit(Address(subnet), i) ==> Bit(Address(mask), i)
  {
    CoveredBits(Address(subnet), Address(mask));
  }

  lemma {:induction false} CoveringMaskIsValid(subnet: string, mask: string)
    requires IsDottedQuad(subnet) && IsDottedQuad(mask)
    ensures (forall i: bv5 :: Bit(Address(subnet), i) ==> Bit(Address(mask), i)) ==>
      IsValidMaskForSubnet(subnet, mask)
  {
    CoveredBits(Address(subnet), Address(mask));
  }

  /** A mask is valid for a subnet exactly when every bit set in the subnet is set in the mask. */
  lemma {:induction false} ValidMaskBits(subnet: string, mask: string)
    requires IsDottedQuad(subnet) && IsDottedQuad(mask)
    ensures IsValidMaskForSubnet(subnet, mask) <==>
      forall i: bv5 :: Bit(Address(subnet), i) ==> Bit(Address(mask), i)
  {
    ValidMaskCovers(subnet, mask);
    CoveringMaskIsValid(subnet, mask);
  }

  lemma {:induction false} MemberAgrees(subnet: string, mask: string, ip: string)
    requires IsDottedQuad(subnet) && IsDottedQuad(mask) && IsDottedQuad(ip)
    ensures IsIpFromSubnet(subnet, mask, ip) ==>
      forall i: bv5 :: Bit(Address(mask), i) ==> (Bit(Address(subnet), i) <==> Bit(Address(ip), i))
  {
    AgreeingBits(Address(subnet), Address(mask), Address(ip));
  }

  lemma {:induction false} AgreeingIsMember(subnet: string, mask: string, ip: string)
    requires IsDottedQuad(subnet) && IsDottedQuad(mask) && IsDottedQuad(ip)
    ensures (forall i: bv5 :: Bit(Address(mask), i) ==> (Bit(Address(subnet), i) <==> Bit(Address(ip), i))) ==>
      IsIpFromSubnet(subnet, mask, ip)
  {
    AgreeingBits(Address(subnet), Address(mask), Address(ip));
  }

  /** An address is in a subnet exactly when it agrees with the subnet on every bit of the mask. */
  lemma {:induction false} FromSubnetBits(subnet: string, mask: string, ip: string)
    requires IsDottedQuad(subnet) && IsDottedQuad(mask) && IsDottedQuad(ip)
    ensures IsIpFromSubnet(subnet, mask, ip) <==>
      forall i: bv5 :: Bit(Address(mask), i) ==> (Bit(Address(subnet), i) <==> Bit(Address(ip), i))
  {
    MemberAgrees(subnet, mask, ip);
    AgreeingIsMember(subnet, mask, ip);
  }

  /** Every subnet contains its own address, whatever the mask. */
  lemma {:induction false} SubnetContainsItself(subnet: string, mask: string)
    requires IsDottedQuad(subnet) && IsDottedQuad(mask)
    ensures IsIpFromSubnet(subnet, mask, subnet)
  {
    AgreeingBits(Address(subnet), Address(mask), Address(subnet));
  }

  lemma {:induction false} NetworkOfMember(s: bv32, m: bv32, a: bv32)
    ensures !m & s == 0 && (s ^ a) & m == 0 ==> a & m == s
  {
  }

  lemma {:induction false} MemberOfNetwork(s: bv32, m: bv32, a: bv32)
    ensures !m & s == 0 && a & m == s ==> (s ^ a) & m == 0
  {
  }

  lemma {:induction false} MemberIsNetwork(subnet: string, mask: string, ip: string)
    requires IsDottedQuad(subnet) && IsDottedQuad(mask) && IsDottedQuad(ip)
    requires IsValidMaskForSubnet(subnet, mask)
    ensures IsIpFromSubnet(subnet, mask, ip) ==> Address(ip) & Address(mask) == Address(subnet)
  {
    NetworkOfMember(Address(subnet), Address(mask), Address(ip));
  }

  lemma {:induction false} NetworkIsMember(subnet: string, mask: string, ip: string)
    requires IsDottedQuad(subnet) && IsDottedQuad(mask) && IsDottedQuad(ip)
    requires IsValidMaskForSubnet(subnet, mask)
    ensures Address(ip) & Address(mask) == Address(subnet) ==> IsIpFromSubnet(subnet, mask, ip)
  {
    MemberOfNetwork(Address(subnet), Address(mask), Address(ip));
  }

  /**
   * With a valid mask, the addresses of a subnet are those whose masked
   * bits are the subnet itself: ip & mask == subnet.
   */
  lemma {:induction false} FromSubnetIsNetwork(subnet: string, mask: string, ip: string)
    requires IsDottedQuad(subnet) && IsDottedQuad(mask) && IsDottedQuad(ip)
    requires IsValidMaskForSubnet(subnet, mask)
    ensures IsIpFromSubnet(subnet, mask, ip) <==> Address(ip) & Address(mask) == Address(subnet)
  {
    MemberIsNetwork(subnet, mask, ip);
    NetworkIsMember(subnet, mask, ip);
  }

  /** With the mask of length L, membership compares the top L bits only. */
  lemma {:induction false} FromSubnetOfLength(subnet: string, length: nat, ip: string)
    requires IsDottedQuad(subnet) && IsDottedQuad(ip) && length <= 32
    ensures IsDottedQuad(Render(GetMaskByLength(length)))
    ensures IsIpFromSubnet(subnet, Render(GetMaskByLength(length)), ip) <==>
      forall i: bv5 :: 32 - length <= i as nat ==> (Bit(Address(subnet), i) <==> Bit(Address(ip), i))
  {
    var mask := Render(GetMaskByLength(length));
    AddressOfRender(GetMaskByLength(length));
    MaskShape(length);
    FromSubnetBits(subnet, mask, ip);
  }

  lemma {:induction false} ValidMaskIsLonger(subnet: string, length: nat)
    requires IsDottedQuad(subnet) && length <= 32
    ensures IsDottedQuad(Render(GetMaskByLength(length)))
    ensures IsValidMaskForSubnet(subnet, Render(GetMaskByLength(length))) ==>
      GetMaskLengthByLowBit(Address(subnet)) <= length
  {
    AddressOfRender(GetMaskByLength(length));
    ShortestCover(Address(subnet), length);
  }

  lemma {:induction false} LongerMaskIsValid(subnet: string, length: nat)
    requires IsDottedQuad(subnet) && length <= 32
    ensures IsDottedQuad(Render(GetMaskByLength(length)))
    ensures GetMaskLengthByLowBit(Address(subnet)) <= length ==>
      IsValidMaskForSubnet(subnet, Render(GetMaskByLength(length)))
  {
    AddressOfRender(GetMaskByLength(length));
    ShortestCover(Address(subnet), length);
  }

  /** A mask of length L is valid for a subnet exactly when L is at least getMaskLengthByLowBit of the subnet. */
  lemma {:induction false} ValidMaskOfLength(subnet: string, length: nat)
    requires IsDottedQuad(subnet) && length <= 32
    ensures IsDottedQuad(Render(GetMaskByLength(length)))
    ensures IsValidMaskForSubnet(subnet, Render(GetMaskByLength(length))) <==>
      GetMaskLengthByLowBit(Address(subnet)) <= length
  {
    ValidMaskIsLonger(subnet, length);
    LongerMaskIsValid(subnet, length);
  }

  /**
   * The octets after adding one: the last octet goes up by one, and an
   * octet at 255 wraps to 0 and carries into the one before it.
   */
  function Increment(o: seq<bv8>): (r: seq<bv8>)
    ensures |r| == |o|
  {
    if o == [] then []
    else if o[|o| - 1] == 255 then Increment(o[..|o| - 1]) + [0]
    else o[..|o| - 1] + [o[|o| - 1] + 1]
  }

  lemma {:induction false} CarryNone(a: bv8, b: bv8, c: bv8, d: bv8)
    requires d != 255
    ensures Pack(a, b, c, d) + 1 == Pack(a, b, c, d + 1)
  {
  }

  lemma {:induction false} CarryOne(a: bv8, b: bv8, c: bv8)
    requires c != 255
    ensures Pack(a, b, c, 255) + 1 == Pack(a, b, c + 1, 0)
  {
  }

  lemma {:induction false} CarryTwo(a: bv8, b: bv8)
    requires b != 255
    ensures Pack(a, b, 255, 255) + 1 == Pack(a, b + 1, 0, 0)
  {
  }

  lemma {:induction false} CarryThree(a: bv8)
    ensures Pack(a, 255, 255, 255) + 1 == Pack(a + 1, 0, 0, 0)
  {
  }

  lemma {:induction false} IncrementFour(a: bv8, b: bv8, c: bv8, d: bv8)
    ensures Increment([a, b, c, d]) ==
      if d != 255 then [a, b, c, d + 1]
      else if c != 255 then [a, b, c + 1, 0]
      else if b != 255 then [a, b + 1, 0, 0]
      else [a + 1, 0, 0, 0]
  {
    assert [a, b, c, d][..3] == [a, b, c];
    assert [a, b, c][..2] == [a, b];
    assert [a, b][..1] == [a];
    assert [a][..0] == [];
    assert Increment([a]) == if a == 255 then [0] else [a + 1];
    assert Increment([a, b]) == if b != 255 then [a, b + 1] else Increment([a]) + [0];
    assert Increment([a, b, c]) == if c != 255 then [a, b, c + 1] else Increment([a, b]) + [0];
  }

  lemma {:induction false} PackIncrement(a: bv8, b: bv8, c: bv8, d: bv8)
    ensures Octets(Pack(a, b, c, d) + 1) == Increment([a, b, c, d])
  {
    IncrementFour(a, b, c, d);
    if d != 255 {
      CarryNone(a, b, c, d);
      OctetsOfPack(a, b, c, d + 1);
    } else if c != 255 {
      CarryOne(a, b, c);
      OctetsOfPack(a, b, c + 1, 0);
    } else if b != 255 {
      CarryTwo(a, b);
      OctetsOfPack(a, b + 1, 0, 0);
    } else {
      CarryThree(a);
      OctetsOfPack(a + 1, 0, 0, 0);
    }
  }

  /**
   * getNextIp writes the dotted quad of the following address modulo 2^32,
   * and its octets are those of ip incremented with carry.
   */
  lemma {:induction false} NextIpOctets(ip: string)
    requires IsDottedQuad(ip)
    ensures IsDottedQuad(GetNextIp(ip))
    ensures Address(GetNextIp(ip)) == Address(ip) + 1
    ensures OctetValues(GetNextIp(ip)) == Increment(OctetValues(ip))
  {
    var o := OctetValues(ip);
    AddressOfRender(Address(ip) + 1);
    OctetValuesOfRender(Address(ip) + 1);
    PackIncrement(o[0], o[1], o[2], o[3]);
    assert [o[0], o[1], o[2], o[3]] == o;
  }

  /** The address after 255.255.255.255 wraps around to 0.0.0.0. */
  lemma {:induction false} NextIpWraps()
    ensures IsDottedQuad("255.255.255.255")
    ensures GetNextIp("255.255.255.255") == "0.0.0.0"
  {
    RenderAllOnes();
    AddressOfRender(!0);
    RenderZero();
  }
}
