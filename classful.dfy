/**
 * Classful mask inference: getMaskLengthByIp, getMaskByIp,
 * isClassfulSubnet and isInRange. The leading octet of an address picks
 * class A, B or C; outside subnet mode the class alone decides the mask,
 * in subnet mode the class mask is taken only when it leaves no host bit
 * set, and otherwise the shortest mask that covers the address.
 */
module Classful {
  import opened Decimal
  import opened Strings
  import opened Grammar
  import opened Codec
  import opened Masks
  import opened Subnets

  /** The three address classes of isClassfulSubnet's table. */
  datatype NetClass = A | B | C {
    /** The first leading octet of the class. */
    function Start(): bv8 {
      match this
      case A => 0
      case B => 128
      case C => 192
    }

    /** The first leading octet past the class. */
    function End(): bv8 {
      match this
      case A => 128
      case B => 192
      case C => 224
    }

    /** The prefix length of the class's mask. */
    function MaskLength(): nat {
      match this
      case A => 8
      case B => 16
      case C => 24
    }
  }

  /** isInRange: start <= num < end, on octets, which is all it is applied to. */
  predicate IsInRange(num: bv8, start: bv8, end: bv8) {
    start <= num < end
  }

  /** binIp >>> 24: the leading octet. */
  function HighOctet(x: bv32): bv8 {
    (x >> 24) as bv8
  }

  /** isClassfulSubnet: the leading octet is in the class and !(binSubnet << maskLength). */
  predicate IsClassfulSubnet(x: bv32, c: NetClass) {
    IsInRange(HighOctet(x), c.Start(), c.End()) && x << ShiftCount(c.MaskLength()) == 0
  }

  /** The body of getMaskLengthByIp once the address has been read as a bitset. */
  function MaskLengthOfBitset(x: bv32, isSubnet: bool): (r: nat)
    ensures r <= 32
  {
    var high := HighOctet(x);
    if !isSubnet && IsInRange(high, 0, 128) then 8
    else if !isSubnet && IsInRange(high, 128, 192) then 16
    else if !isSubnet && IsInRange(high, 192, 224) then 24
    else if IsClassfulSubnet(x, A) then 8
    else if IsClassfulSubnet(x, B) then 16
    else if IsClassfulSubnet(x, C) then 24
    else if IsInRange(high, 0, 224) then GetMaskLengthByLowBit(x)
    else 0
  }

  /** getMaskLengthByIp */
  function GetMaskLengthByIp(ip: string, isSubnet: bool): (r: nat)
    requires IsDottedQuad(ip)
    ensures r <= 32
  {
    MaskLengthOfBitset(Address(ip), isSubnet)
  }

  /** getMaskByIp: the mask whose length getMaskLengthByIp infers. */
  function GetMaskByIp(ip: string, isSubnet: bool): (r: bv32)
    requires IsDottedQuad(ip)
    ensures IsMaskBits(r)
    ensures GetMaskLengthByLowBit(r) == GetMaskLengthByIp(ip, isSubnet)
  {
    MaskIsMask(GetMaskLengthByIp(ip, isSubnet));
    LengthOfMask(GetMaskLengthByIp(ip, isSubnet));
    GetMaskByLength(GetMaskLengthByIp(ip, isSubnet))
  }

  // Bitset facts.

  lemma {:induction false} HostBitsA(x: bv32)
    ensures x << (8 as bv5) == 0 ==> x & !(!0 << (24 as bv5)) == 0
    ensures x & !(!0 << (24 as bv5)) == 0 ==> x << (8 as bv5) == 0
  {
  }

  lemma {:induction false} HostBitsB(x: bv32)
    ensures x << (16 as bv5) == 0 ==> x & !(!0 << (16 as bv5)) == 0
    ensures x & !(!0 << (16 as bv5)) == 0 ==> x << (16 as bv5) == 0
  {
  }

  lemma {:induction false} HostBitsC(x: bv32)
    ensures x << (24 as bv5) == 0 ==> x & !(!0 << (8 as bv5)) == 0
    ensures x & !(!0 << (8 as bv5)) == 0 ==> x << (24 as bv5) == 0
  {
  }

  lemma ClassShiftCounts()
    ensures ShiftCount(8) == 8 && ShiftCount(16) == 16 && ShiftCount(24) == 24
  {
  }

  lemma ClassMaskA()
    ensures ShiftCount(8) == 8 && GetMaskByLength(8) == !0 << (24 as bv5)
  {
    ClassShiftCounts();
  }

  lemma ClassMaskB()
    ensures ShiftCount(16) == 16 && GetMaskByLength(16) == !0 << (16 as bv5)
  {
    ClassShiftCounts();
  }

  lemma ClassMaskC()
    ensures ShiftCount(24) == 24 && GetMaskByLength(24) == !0 << (8 as bv5)
  {
    ClassShiftCounts();
  }

  lemma {:induction false} HostBitsInMask(x: bv32, c: NetClass)
    ensures x << ShiftCount(c.MaskLength()) == 0 ==> x & !GetMaskByLength(c.MaskLength()) == 0
  {
    match c
    case A => ClassMaskA(); HostBitsA(x);
    case B => ClassMaskB(); HostBitsB(x);
    case C => ClassMaskC(); HostBitsC(x);
  }

  lemma {:induction false} MaskedHostBits(x: bv32, c: NetClass)
    ensures x & !GetMaskByLength(c.MaskLength()) == 0 ==> x << ShiftCount(c.MaskLength()) == 0
  {
    match c
    case A => ClassMaskA(); HostBitsA(x);
    case B => ClassMaskB(); HostBitsB(x);
    case C => ClassMaskC(); HostBitsC(x);
  }

  /**
   * !(x << maskLength) says that the bits of x below the class boundary,
   * the host bits, are all zero: x lies inside the class mask.
   */
  lemma {:induction false} HostBitsZero(x: bv32, c: NetClass)
    ensures x << ShiftCount(c.MaskLength()) == 0 ==> x & !GetMaskByLength(c.MaskLength()) == 0
    ensures x & !GetMaskByLength(c.MaskLength()) == 0 ==> x << ShiftCount(c.MaskLength()) == 0
  {
    HostBitsInMask(x, c);
    MaskedHostBits(x, c);
  }

  // Properties of the inference.

  /** The class ranges are disjoint, so at most one class test can succeed. */
  lemma {:induction false} AtMostOneClass(x: bv32, c: NetClass, d: NetClass)
    ensures IsClassfulSubnet(x, c) && IsClassfulSubnet(x, d) ==> c == d
  {
  }

  /**
   * In subnet mode an address in class c gets the class length exactly
   * when it has no host bit set below that class's mask.
   */
  lemma {:induction false} SubnetClassLength(x: bv32, c: NetClass)
    requires IsInRange(HighOctet(x), c.Start(), c.End())
    ensures MaskLengthOfBitset(x, true) == c.MaskLength() ==> x & !GetMaskByLength(c.MaskLength()) == 0
    ensures x & !GetMaskByLength(c.MaskLength()) == 0 ==> MaskLengthOfBitset(x, true) == c.MaskLength()
  {
    SubnetLengthInClass(x, c);
    HostBitsZero(x, c);
    ShortestCover(x, c.MaskLength());
  }

  lemma {:induction false} SubnetLengthA(x: bv32)
    requires IsInRange(HighOctet(x), 0, 128)
    ensures MaskLengthOfBitset(x, true) == if x << ShiftCount(8) == 0 then 8 else GetMaskLengthByLowBit(x)
  {
    ClassShiftCounts();
  }

  lemma {:induction false} SubnetLengthB(x: bv32)
    requires IsInRange(HighOctet(x), 128, 192)
    ensures MaskLengthOfBitset(x, true) == if x << ShiftCount(16) == 0 then 16 else GetMaskLengthByLowBit(x)
  {
    ClassShiftCounts();
  }

  lemma {:induction false} SubnetLengthC(x: bv32)
    requires IsInRange(HighOctet(x), 192, 224)
    ensures MaskLengthOfBitset(x, true) == if x << ShiftCount(24) == 0 then 24 else GetMaskLengthByLowBit(x)
  {
    ClassShiftCounts();
  }

  /**
   * In subnet mode an address in class c gets the class length when its
   * host bits are zero, and getMaskLengthByLowBit otherwise.
   */
  lemma {:induction false} SubnetLengthInClass(x: bv32, c: NetClass)
    requires IsInRange(HighOctet(x), c.Start(), c.End())
    ensures MaskLengthOfBitset(x, true) ==
      if x << ShiftCount(c.MaskLength()) == 0 then c.MaskLength() else GetMaskLengthByLowBit(x)
  {
    match c
    case A => SubnetLengthA(x);
    case B => SubnetLengthB(x);
    case C => SubnetLengthC(x);
  }

  lemma {:induction false} ClassMaskCovers(x: bv32, c: NetClass)
    requires IsInRange(HighOctet(x), c.Start(), c.End()) && x << ShiftCount(c.MaskLength()) == 0
    ensures x & !GetMaskByLength(MaskLengthOfBitset(x, true)) == 0
  {
    SubnetLengthInClass(x, c);
    HostBitsZero(x, c);
  }

  lemma {:induction false} ShortestMaskCovers(x: bv32)
    requires MaskLengthOfBitset(x, true) == GetMaskLengthByLowBit(x)
    ensures x & !GetMaskByLength(MaskLengthOfBitset(x, true)) == 0
  {
    ShortestCover(x, GetMaskLengthByLowBit(x));
  }

  /**
   * In subnet mode below class D the inferred mask covers the address,
   * and when no class test succeeds it is the shortest mask that does.
   */
  lemma {:induction false} SubnetMaskCovers(x: bv32)
    requires HighOctet(x) < 224
    ensures x & !GetMaskByLength(MaskLengthOfBitset(x, true)) == 0
    ensures (forall c: NetClass :: !IsClassfulSubnet(x, c)) ==>
      MaskLengthOfBitset(x, true) == GetMaskLengthByLowBit(x)
  {
    ClassShiftCounts();
    if HighOctet(x) < 128 {
      SubnetLengthA(x);
      if x << ShiftCount(8) == 0 { ClassMaskCovers(x, A); } else { ShortestMaskCovers(x); }
    } else if HighOctet(x) < 192 {
      SubnetLengthB(x);
      if x << ShiftCount(16) == 0 { ClassMaskCovers(x, B); } else { ShortestMaskCovers(x); }
    } else {
      SubnetLengthC(x);
      if x << ShiftCount(24) == 0 { ClassMaskCovers(x, C); } else { ShortestMaskCovers(x); }
    }
  }

  // On dotted quads.

  lemma {:induction false} HighOctetOfPack(a: bv8, b: bv8, c: bv8, d: bv8)
    ensures HighOctet(Pack(a, b, c, d)) == a
  {
  }

  /** The leading octet getMaskLengthByIp looks at is the number written first in the address. */
  lemma {:induction false} HighOctetIsFirst(ip: string)
    requires IsDottedQuad(ip)
    ensures HighOctet(Address(ip)) as nat == Value(Split(ip, '.')[0])
  {
    var o := OctetValues(ip);
    HighOctetOfPack(o[0], o[1], o[2], o[3]);
    ByteOfValue(Split(ip, '.')[0]);
  }

  /**
   * In subnet mode, for an address below class D, getMaskByIp gives a mask
   * that isValidMaskForSubnet accepts for the address.
   */
  lemma {:induction false} InferredMaskIsValid(ip: string)
    requires IsDottedQuad(ip) && Value(Split(ip, '.')[0]) < 224
    ensures IsDottedQuad(Render(GetMaskByIp(ip, true)))
    ensures IsValidMaskForSubnet(ip, Render(GetMaskByIp(ip, true)))
  {
    HighOctetIsFirst(ip);
    AddressOfRender(GetMaskByIp(ip, true));
    SubnetMaskCovers(Address(ip));
  }

  lemma {:induction false} ClassLengths(x: bv32, isSubnet: bool)
    ensures HighOctet(x) as nat < 128 ==> MaskLengthOfBitset(x, false) == 8
    ensures 128 <= HighOctet(x) as nat < 192 ==> MaskLengthOfBitset(x, false) == 16
    ensures 192 <= HighOctet(x) as nat < 224 ==> MaskLengthOfBitset(x, false) == 24
    ensures 224 <= HighOctet(x) as nat ==> MaskLengthOfBitset(x, isSubnet) == 0
  {
  }

  /** Outside subnet mode the number written first decides the class length, and 224 or more gives 0 in both modes. */
  lemma {:induction false} ClassByFirstOctet(ip: string, isSubnet: bool)
    requires IsDottedQuad(ip)
    ensures Value(Split(ip, '.')[0]) < 128 ==> GetMaskLengthByIp(ip, false) == 8
    ensures 128 <= Value(Split(ip, '.')[0]) < 192 ==> GetMaskLengthByIp(ip, false) == 16
    ensures 192 <= Value(Split(ip, '.')[0]) < 224 ==> GetMaskLengthByIp(ip, false) == 24
    ensures 224 <= Value(Split(ip, '.')[0]) ==> GetMaskLengthByIp(ip, isSubnet) == 0
  {
    HighOctetIsFirst(ip);
    ClassLengths(Address(ip), isSubnet);
  }

  lemma {:induction false} HostOctets(a: bv8, b: bv8, c: bv8, d: bv8)
    ensures Pack(a, b, c, d) << (8 as bv5) == 0 ==> b == 0 && c == 0 && d == 0
    ensures b == 0 && c == 0 && d == 0 ==> Pack(a, b, c, d) << (8 as bv5) == 0
    ensures Pack(a, b, c, d) << (16 as bv5) == 0 ==> c == 0 && d == 0
    ensures c == 0 && d == 0 ==> Pack(a, b, c, d) << (16 as bv5) == 0
    ensures Pack(a, b, c, d) << (24 as bv5) == 0 ==> d == 0
    ensures d == 0 ==> Pack(a, b, c, d) << (24 as bv5) == 0
  {
  }

  /** The network octets of a class: one for A, two for B, three for C. */
  function NetworkOctets(c: NetClass): (n: nat)
    ensures 8 * n == c.MaskLength()
  {
    c.MaskLength() / 8
  }

  lemma {:induction false} ClassfulOctets(ip: string, c: NetClass)
    requires IsDottedQuad(ip)
    ensures var o := OctetValues(ip);
      IsClassfulSubnet(Address(ip), c) ==>
        IsInRange(o[0], c.Start(), c.End()) && forall k :: NetworkOctets(c) <= k < 4 ==> o[k] == 0
  {
    var o := OctetValues(ip);
    HighOctetOfPack(o[0], o[1], o[2], o[3]);
    HostOctets(o[0], o[1], o[2], o[3]);
    ClassShiftCounts();
  }

  lemma {:induction false} OctetsClassful(ip: string, c: NetClass)
    requires IsDottedQuad(ip)
    ensures var o := OctetValues(ip);
      IsInRange(o[0], c.Start(), c.End()) && (forall k :: NetworkOctets(c) <= k < 4 ==> o[k] == 0) ==>
        IsClassfulSubnet(Address(ip), c)
  {
    var o := OctetValues(ip);
    HighOctetOfPack(o[0], o[1], o[2], o[3]);
    HostOctets(o[0], o[1], o[2], o[3]);
    ClassShiftCounts();
  }

  /**
   * isClassfulSubnet on a dotted quad: the first octet lies in the class
   * and every octet past the class's network octets is zero.
   */
  lemma {:induction false} ClassfulSubnetOctets(ip: string, c: NetClass)
    requires IsDottedQuad(ip)
    ensures var o := OctetValues(ip);
      IsClassfulSubnet(Address(ip), c) <==>
        IsInRange(o[0], c.Start(), c.End()) && forall k :: NetworkOctets(c) <= k < 4 ==> o[k] == 0
  {
    ClassfulOctets(ip, c);
    OctetsClassful(ip, c);
  }
}
