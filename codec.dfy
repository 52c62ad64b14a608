/**
 * The two conversions every operation of ip.js goes through: a dotted quad
 * to its 32-bit bitset (getBinaryIp) and a bitset back to a dotted quad
 * (bitsetToIp). The first octet of the text is the most significant byte.
 */
module Codec {
  import opened Decimal
  import opened Strings
  import opened Grammar

  /** The octet in the low eight bits of x. */
  function Byte(x: bv32): bv8 {
    (x & 0xFF) as bv8
  }

  /** The n low octets of x, most significant first. */
  function LowOctets(x: bv32, n: nat): (r: seq<bv8>)
    ensures |r| == n
  {
    if n == 0 then [] else LowOctets(x >> 8, n - 1) + [Byte(x)]
  }

  /** The four octets of x, most significant first. */
  function Octets(x: bv32): (r: seq<bv8>)
    ensures |r| == 4
  {
    LowOctets(x, 4)
  }

  /** The bitset whose octets, most significant first, are a, b, c and d. */
  function Pack(a: bv8, b: bv8, c: bv8, d: bv8): bv32 {
    ((a as bv32) << 24) | ((b as bv32) << 16) | ((c as bv32) << 8) | (d as bv32)
  }

  /** n as an octet, counted up from 0; n is below 256 wherever it is used. */
  function NatToByte(n: nat): bv8 {
    if n == 0 then 0 else NatToByte(n - 1) + 1
  }

  /** An octet text read as a number, as ip.split('.').map(Number) does. */
  function ByteOf(text: string): bv8
    requires IsOctetText(text)
  {
    NatToByte(Value(text))
  }

  lemma {:induction false} ByteSucc(b: bv8)
    ensures b as nat < 255 ==> (b + 1) as nat == b as nat + 1
  {
  }

  lemma {:induction false} NatToByteValue(n: nat)
    ensures n < 256 ==> NatToByte(n) as nat == n
  {
    if 0 < n < 256 {
      NatToByteValue(n - 1);
      ByteSucc(NatToByte(n - 1));
    }
  }

  lemma {:induction false} NatToByteOfByte(b: bv8)
    ensures NatToByte(b as nat) == b
  {
    NatToByteValue(b as nat);
  }

  /** The octet read from a text has the text's numeric value. */
  lemma {:induction false} ByteOfValue(text: string)
    requires IsOctetText(text)
    ensures ByteOf(text) as nat == Value(text)
  {
    OctetTextIsByte(text);
    NatToByteValue(Value(text));
  }

  /** The numbers of the four octet texts of a dotted quad. */
  function OctetValues(ip: string): (r: seq<bv8>)
    requires IsDottedQuad(ip)
    ensures |r| == 4
  {
    var parts := Split(ip, '.');
    [ByteOf(parts[0]), ByteOf(parts[1]), ByteOf(parts[2]), ByteOf(parts[3])]
  }

  /** The bitset getBinaryIp computes for a dotted quad. */
  function Address(ip: string): bv32
    requires IsDottedQuad(ip)
  {
    var o := OctetValues(ip);
    Pack(o[0], o[1], o[2], o[3])
  }

  /** An octet written as a decimal numeral. */
  function OctetText(b: bv8): string {
    Text(b as nat)
  }

  /** octets.join('.') for an array of numbers. */
  function JoinOctets(o: seq<bv8>): string
    requires |o| >= 1
  {
    Join(seq(|o|, i requires 0 <= i < |o| => OctetText(o[i])), '.')
  }

  /** The dotted quad bitsetToIp writes for a bitset. */
  function Render(x: bv32): string {
    JoinOctets(Octets(x))
  }

  /** The bitset after shifting in the octets of o one by one. */
  function ShiftedIn(o: seq<bv8>): bv32 {
    if o == [] then 0 else (ShiftedIn(o[..|o| - 1]) << 8) | (o[|o| - 1] as bv32)
  }

  /** getBinaryIp: ip.split('.').map(Number), then bitset = bitset << 8 | octet for each. */
  method GetBinaryIp(ip: string) returns (bitset: bv32)
    requires IsDottedQuad(ip)
    ensures bitset == Address(ip)
    ensures Octets(bitset) == OctetValues(ip)
  {
    var octets := OctetValues(ip);
    bitset := 0;
    for i := 0 to |octets|
      invariant bitset == ShiftedIn(octets[..i])
    {
      assert octets[..i + 1][..i] == octets[..i];
      bitset := (bitset << 8) | (octets[i] as bv32);
    }
    assert octets[..|octets|] == octets;
    ShiftedInFour(octets);
    OctetsOfPack(octets[0], octets[1], octets[2], octets[3]);
  }

  /** bitsetToIp: four times, put the low octet in front and shift right by eight; then join with dots. */
  method BitsetToIp(bitset: bv32) returns (ip: string)
    ensures ip == Render(bitset)
  {
    var octets: seq<bv8> := [];
    var rest := bitset;
    for i := 0 to 4
      invariant LowOctets(rest, 4 - i) + octets == Octets(bitset)
    {
      octets := [(rest & 255) as bv8] + octets;
      rest := rest >> 8;
    }
    assert LowOctets(rest, 0) == [];
    assert octets == Octets(bitset);
    ip := JoinOctets(octets);
  }

  lemma OneByte(a: bv8)
    ensures (0 << 8) | (a as bv32) == a as bv32
  {
  }

  lemma ShiftedInBits(a: bv8, b: bv8, c: bv8, d: bv8)
    ensures ((((((a as bv32) << 8) | (b as bv32)) << 8) | (c as bv32)) << 8) | (d as bv32) == Pack(a, b, c, d)
  {
  }

  /** Shifting in four octets packs them, the first one highest. */
  lemma ShiftedInFour(o: seq<bv8>)
    requires |o| == 4
    ensures ShiftedIn(o) == Pack(o[0], o[1], o[2], o[3])
  {
    assert o[..3][..2] == o[..2];
    assert o[..2][..1] == o[..1];
    assert o[..1][..0] == [];
    OneByte(o[0]);
    ShiftedInBits(o[0], o[1], o[2], o[3]);
  }

  lemma OctetsBytes(x: bv32)
    ensures Octets(x) == [Byte(((x >> 8) >> 8) >> 8), Byte((x >> 8) >> 8), Byte(x >> 8), Byte(x)]
  {
    assert LowOctets(((x >> 8) >> 8) >> 8, 1) == [Byte(((x >> 8) >> 8) >> 8)];
    assert LowOctets((x >> 8) >> 8, 2) == [Byte(((x >> 8) >> 8) >> 8), Byte((x >> 8) >> 8)];
    assert LowOctets(x >> 8, 3) == [Byte(((x >> 8) >> 8) >> 8), Byte((x >> 8) >> 8), Byte(x >> 8)];
  }

  lemma PackBytes(a: bv8, b: bv8, c: bv8, d: bv8)
    ensures var x := Pack(a, b, c, d);
      Byte(((x >> 8) >> 8) >> 8) == a && Byte((x >> 8) >> 8) == b && Byte(x >> 8) == c && Byte(x) == d
  {
  }

  lemma BytesPack(x: bv32)
    ensures Pack(Byte(((x >> 8) >> 8) >> 8), Byte((x >> 8) >> 8), Byte(x >> 8), Byte(x)) == x
  {
  }

  /** Splitting a packed bitset into octets gives back the octets. */
  lemma OctetsOfPack(a: bv8, b: bv8, c: bv8, d: bv8)
    ensures Octets(Pack(a, b, c, d)) == [a, b, c, d]
  {
    OctetsBytes(Pack(a, b, c, d));
    PackBytes(a, b, c, d);
  }

  /** Packing the octets of a bitset gives back the bitset. */
  lemma PackOfOctets(x: bv32)
    ensures Pack(Octets(x)[0], Octets(x)[1], Octets(x)[2], Octets(x)[3]) == x
  {
    OctetsBytes(x);
    BytesPack(x);
  }

  lemma TopByte(x: bv32)
    ensures Byte(((x >> 8) >> 8) >> 8) as bv32 == x >> 24
  {
  }

  /** The first octet of a bitset is its top eight bits, x >>> 24. */
  lemma FirstOctetIsHigh(x: bv32)
    ensures Octets(x)[0] as bv32 == x >> 24
  {
    OctetsBytes(x);
    TopByte(x);
  }

  /** The octet texts of a rendered bitset, in order. */
  lemma RenderParts(x: bv32)
    ensures var o := Octets(x);
      Split(Render(x), '.') == [OctetText(o[0]), OctetText(o[1]), OctetText(o[2]), OctetText(o[3])]
  {
    var o := Octets(x);
    var texts := seq(4, i requires 0 <= i < 4 => OctetText(o[i]));
    forall i | 0 <= i < 4
      ensures '.' !in texts[i]
    {
      assert IsDigits(texts[i]);
    }
    SplitJoin(texts, '.');
    assert texts == [OctetText(o[0]), OctetText(o[1]), OctetText(o[2]), OctetText(o[3])];
  }

  /** bitsetToIp writes the four octets, most significant first, with dots between. */
  lemma RenderOctets(x: bv32)
    ensures var o := Octets(x);
      Render(x) == OctetText(o[0]) + "." + OctetText(o[1]) + "." + OctetText(o[2]) + "." + OctetText(o[3])
  {
    var o := Octets(x);
    var texts := seq(4, i requires 0 <= i < 4 => OctetText(o[i]));
    assert texts == [OctetText(o[0]), OctetText(o[1]), OctetText(o[2]), OctetText(o[3])];
    JoinFour(OctetText(o[0]), OctetText(o[1]), OctetText(o[2]), OctetText(o[3]), '.');
  }

  /** bitsetToIp(0) is 0.0.0.0. */
  lemma RenderZero()
    ensures Render(0) == "0.0.0.0"
  {
    OctetsOfPack(0, 0, 0, 0);
    assert Pack(0, 0, 0, 0) == 0;
    RenderOctets(0);
    assert OctetText(0) == "0";
  }

  /** bitsetToIp(~0) is 255.255.255.255. */
  lemma RenderAllOnes()
    ensures Render(!0) == "255.255.255.255"
  {
    OctetsOfPack(255, 255, 255, 255);
    assert Pack(255, 255, 255, 255) == !0;
    RenderOctets(!0);
    assert Text(25) == "25";
    assert OctetText(255) == "255";
  }

  lemma TextOfByte(b: bv8)
    ensures IsOctetText(OctetText(b)) && ByteOf(OctetText(b)) == b
  {
    OctetTextIsByte(Text(b as nat));
    NatToByteOfByte(b);
  }

  /** bitsetToIp writes a dotted quad. */
  lemma RenderIsDottedQuad(x: bv32)
    ensures IsDottedQuad(Render(x))
  {
    var o := Octets(x);
    var parts := Split(Render(x), '.');
    RenderParts(x);
    TextOfByte(o[0]);
    TextOfByte(o[1]);
    TextOfByte(o[2]);
    TextOfByte(o[3]);
    assert IsOctetText(parts[0]) && IsOctetText(parts[1]) && IsOctetText(parts[2]) && IsOctetText(parts[3]);
  }

  /** The octet numbers of a rendered bitset are the bitset's octets. */
  lemma OctetValuesOfRender(x: bv32)
    ensures IsDottedQuad(Render(x))
    ensures OctetValues(Render(x)) == Octets(x)
  {
    RenderIsDottedQuad(x);
    var o := Octets(x);
    RenderParts(x);
    TextOfByte(o[0]);
    TextOfByte(o[1]);
    TextOfByte(o[2]);
    TextOfByte(o[3]);
    assert OctetValues(Render(x)) == [o[0], o[1], o[2], o[3]];
  }

  /** bitsetToIp writes a dotted quad that getBinaryIp reads back as the same bitset. */
  lemma AddressOfRender(x: bv32)
    ensures IsDottedQuad(Render(x))
    ensures Address(Render(x)) == x
  {
    OctetValuesOfRender(x);
    PackOfOctets(x);
  }

  /** getBinaryIp keeps the octets in order: the bitset's octets are the numbers of the text's octets. */
  lemma OctetsOfAddress(ip: string)
    requires IsDottedQuad(ip)
    ensures Octets(Address(ip)) == OctetValues(ip)
  {
    var o := OctetValues(ip);
    OctetsOfPack(o[0], o[1], o[2], o[3]);
  }

  lemma ByteOfText(text: string)
    requires IsOctetText(text)
    ensures OctetText(ByteOf(text)) == text
  {
    ByteOfValue(text);
    OctetTextIsByte(text);
    TextOfValue(text);
  }

  /** A dotted quad read by getBinaryIp and written back by bitsetToIp is unchanged. */
  lemma RenderOfAddress(ip: string)
    requires IsDottedQuad(ip)
    ensures Render(Address(ip)) == ip
  {
    var parts := Split(ip, '.');
    OctetsOfAddress(ip);
    ByteOfText(parts[0]);
    ByteOfText(parts[1]);
    ByteOfText(parts[2]);
    ByteOfText(parts[3]);
    var o := Octets(Address(ip));
    var texts := seq(4, i requires 0 <= i < 4 => OctetText(o[i]));
    assert texts == parts;
    JoinSplit(ip, '.');
  }

  /** Distinct dotted quads have distinct bitsets. */
  lemma AddressInjective(ip1: string, ip2: string)
    requires IsDottedQuad(ip1) && IsDottedQuad(ip2)
    ensures Address(ip1) == Address(ip2) <==> ip1 == ip2
  {
    RenderOfAddress(ip1);
    RenderOfAddress(ip2);
  }
}
