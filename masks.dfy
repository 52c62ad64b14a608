/**
 * Netmasks as 32-bit bitsets: getMaskByLength, getMaskLengthByLowBit,
 * isMask and getMaskLength. JavaScript reads a shift count modulo 32,
 * and bit operations act on the 32-bit two's complement pattern, so a
 * bitset is a bv32 and a shift count a bv5.
 */
module Masks {
  import opened Grammar
  import opened Codec

  /** Bit i of x, counting from the least significant bit. */
  predicate Bit(x: bv32, i: bv5) {
    (x >> i) & 1 == 1
  }

  /** A shift count as JavaScript takes it: n modulo 32. */
  function ShiftCount(n: nat): bv5 {
    if n == 0 then 0 else ShiftCount(n - 1) + 1
  }

  /**
   * ~~(Math.log(p) / Math.LN2) taken exactly: the position of the highest
   * set bit of p; 0 for p = 1, and 0 for p = 0 as ~~(-Infinity) is 0.
   */
  function FloorLog2(p: bv32): nat
    decreases p
  {
    if p <= 1 then 0 else FloorLog2(p >> 1) + 1
  }

  /** -x & x: the lowest set bit of x alone. */
  function LowBit(x: bv32): bv32 {
    (0 - x) & x
  }

  /** getMaskByLength: ~0 << (32 - length), and 0 for length 0 since ~0 << 32 is ~0. */
  function GetMaskByLength(length: nat): (r: bv32)
    requires length <= 32
    ensures r == 0 ==> length == 0
    ensures length == 0 ==> r == 0
  {
    if length == 0 then
      0
    else
      OnesNonZero(ShiftCount(32 - length));
      !0 << ShiftCount(32 - length)
  }

  /** getMaskLengthByLowBit: 32 minus the position of the lowest set bit, and 0 for 0. */
  function GetMaskLengthByLowBit(x: bv32): (r: nat)
    ensures r <= 32
    ensures r == 0 <==> x == 0
  {
    if x == 0 then
      0
    else
      var pow := FloorLog2(LowBit(x));
      FloorLog2Below32(LowBit(x));
      32 - pow
  }

  /** The bitset form of isMask: !(~m & -m). */
  predicate IsMaskBits(m: bv32) {
    !m & (0 - m) == 0
  }

  /** isMask */
  predicate IsMask(ip: string)
    requires IsDottedQuad(ip)
  {
    IsMaskBits(Address(ip))
  }

  /** getMaskLength: at most 32, and 0 only for the mask 0.0.0.0. */
  function GetMaskLength(mask: string): (r: nat)
    requires IsDottedQuad(mask)
    ensures r <= 32
    ensures r == 0 ==> mask == "0.0.0.0"
    ensures mask == "0.0.0.0" ==> r == 0
  {
    RenderOfAddress(mask);
    AddressOfRender(0);
    RenderZero();
    GetMaskLengthByLowBit(Address(mask))
  }

  /** The ones of m form one run that reaches the most significant bit. */
  ghost predicate Contiguous(m: bv32) {
    forall i: bv5, j: bv5 :: i <= j && Bit(m, i) ==> Bit(m, j)
  }

  // Positions, kept out of lemma statements' recursive unfoldings.

  /** The position of the lowest set bit of x. */
  function LowPos(x: bv32): bv5 {
    ShiftCount(FloorLog2(LowBit(x)))
  }

  /** The position of the highest set bit of x. */
  function HighPos(x: bv32): bv5 {
    ShiftCount(FloorLog2(x))
  }

  /** The lowest bit a mask of the given length covers. */
  function MaskPos(length: nat): bv5
    requires length <= 32
  {
    ShiftCount(32 - length)
  }

  // Shift counts and logarithms.

  lemma {:induction false} Succ(c: bv5)
    ensures c as nat < 31 ==> (c + 1) as nat == c as nat + 1
  {
  }

  lemma {:induction false} ShiftCountValue(n: nat)
    ensures n < 32 ==> ShiftCount(n) as nat == n
  {
    if 0 < n < 32 {
      ShiftCountValue(n - 1);
      Succ(ShiftCount(n - 1));
    }
  }

  lemma {:induction false} OrderCast(t: bv5, u: bv5)
    ensures t <= u <==> t as nat <= u as nat
  {
  }

  lemma {:induction false} ShiftCountOrder(n: nat, m: nat)
    ensures n < 32 && m < 32 ==> (ShiftCount(n) <= ShiftCount(m) <==> n <= m)
  {
    ShiftCountValue(n);
    ShiftCountValue(m);
    OrderCast(ShiftCount(n), ShiftCount(m));
  }

  lemma {:induction false} HalfBound(p: bv32, q: bv5)
    ensures q != 31 && p >> (q + 1) <= 1 ==> (p >> 1) >> q <= 1
  {
  }

  /** A bitset with no bit above position n has its highest bit at n or below. */
  lemma {:induction false} FloorLog2Bound(p: bv32, n: nat)
    ensures n < 32 && p >> ShiftCount(n) <= 1 ==> FloorLog2(p) <= n
    decreases n
  {
    if 0 < n < 32 && p > 1 {
      ShiftCountValue(n - 1);
      HalfBound(p, ShiftCount(n - 1));
      FloorLog2Bound(p >> 1, n - 1);
    }
  }

  lemma {:induction false} TopShift(p: bv32)
    ensures p >> (31 as bv5) <= 1
  {
  }

  lemma {:induction false} FloorLog2Below32(p: bv32)
    ensures FloorLog2(p) < 32
  {
    ShiftCountValue(31);
    TopShift(p);
    FloorLog2Bound(p, 31);
  }

  lemma {:induction false} TopStep(p: bv32, q: bv5, r: bv5)
    requires p > 1 && r == q + 1 && (p >> 1) >> q == 1
    ensures p >> r == 1
  {
  }

  lemma {:induction false} HighPosStep(p: bv32)
    requires p > 1
    ensures HighPos(p) == HighPos(p >> 1) + 1
  {
  }

  /** FloorLog2 finds the highest set bit: shifting it down leaves exactly 1. */
  lemma {:induction false} FloorLog2Top(p: bv32)
    ensures p != 0 ==> p >> HighPos(p) == 1
    decreases p
  {
    if p > 1 {
      FloorLog2Top(p >> 1);
      HighPosStep(p);
      TopStep(p, HighPos(p >> 1), HighPos(p));
    }
  }

  lemma {:induction false} LowPosTop(x: bv32)
    ensures x != 0 ==> LowBit(x) >> LowPos(x) == 1
  {
    if x != 0 {
      assert LowBit(x) != 0;
      FloorLog2Top(LowBit(x));
      assert LowPos(x) == HighPos(LowBit(x));
    }
  }

  // Facts about single bitsets, free of recursion.

  lemma {:induction false} OnesBit(k: bv5, i: bv5)
    ensures Bit(!0 << k, i) <==> k <= i
  {
  }

  lemma {:induction false} LowBitCover(x: bv32, t: bv5, k: bv5)
    ensures LowBit(x) >> t == 1 ==> (x & !(!0 << k) == 0 <==> k <= t)
  {
  }

  lemma {:induction false} OnesLowBit(k: bv5, t: bv5)
    ensures LowBit(!0 << k) >> t == 1 ==> t == k
  {
  }

  lemma {:induction false} OnesNonZero(k: bv5)
    ensures !0 << k != 0 as bv32
  {
  }

  lemma {:induction false} OnesIsMask(k: bv5)
    ensures IsMaskBits(!0 << k)
  {
  }

  lemma {:induction false} MaskFromLowBit(m: bv32, t: bv5)
    ensures LowBit(m) >> t == 1 && IsMaskBits(m) ==> m == !0 << t
  {
  }

  lemma {:induction false} MaskUpward(m: bv32, i: bv5, j: bv5)
    ensures IsMaskBits(m) && i <= j && Bit(m, i) ==> Bit(m, j)
  {
  }

  lemma {:induction false} LowBitIsSet(m: bv32, i: bv5)
    ensures LowBit(m) >> i == 1 ==> Bit(m, i)
  {
  }

  lemma {:induction false} GapIsClear(m: bv32, j: bv5)
    ensures (!m & (0 - m)) >> j == 1 ==> !Bit(m, j)
  {
  }

  lemma {:induction false} GapAboveLowBit(m: bv32, i: bv5, j: bv5)
    ensures LowBit(m) >> i == 1 && j < i ==> !Bit(!m & (0 - m), j)
  {
  }

  lemma {:induction false} TopIsSet(d: bv32, j: bv5)
    ensures d >> j == 1 ==> Bit(d, j)
  {
  }

  // Properties of the mask operations.

  /** A mask of length L has exactly L leading ones: bit i is set iff i >= 32 - L. */
  lemma {:induction false} MaskShape(length: nat)
    requires length <= 32
    ensures forall i: bv5 :: Bit(GetMaskByLength(length), i) <==> 32 - length <= i as nat
  {
    forall i: bv5
      ensures Bit(GetMaskByLength(length), i) <==> 32 - length <= i as nat
    {
      if length != 0 {
        OnesBit(MaskPos(length), i);
        ShiftCountValue(32 - length);
        OrderCast(MaskPos(length), i);
      }
    }
  }

  /** Every result of getMaskByLength passes the isMask test. */
  lemma {:induction false} MaskIsMask(length: nat)
    requires length <= 32
    ensures IsMaskBits(GetMaskByLength(length))
  {
    if length != 0 {
      OnesIsMask(MaskPos(length));
    }
  }

  lemma {:induction false} CoverAtPos(x: bv32, length: nat)
    requires x != 0 && 1 <= length <= 32
    ensures x & !GetMaskByLength(length) == 0 <==> MaskPos(length) <= LowPos(x)
  {
    LowPosTop(x);
    LowBitCover(x, LowPos(x), MaskPos(length));
  }

  lemma {:induction false} PosOrder(x: bv32, length: nat)
    requires x != 0 && 1 <= length <= 32
    ensures MaskPos(length) <= LowPos(x) <==> GetMaskLengthByLowBit(x) <= length
  {
    FloorLog2Below32(LowBit(x));
    ShiftCountOrder(32 - length, FloorLog2(LowBit(x)));
  }

  /**
   * getMaskLengthByLowBit gives the shortest mask that covers x: the mask of
   * length L leaves no bit of x outside it exactly when L is at least the result.
   */
  lemma {:induction false} ShortestCover(x: bv32, length: nat)
    requires length <= 32
    ensures x & !GetMaskByLength(length) == 0 ==> GetMaskLengthByLowBit(x) <= length
    ensures GetMaskLengthByLowBit(x) <= length ==> x & !GetMaskByLength(length) == 0
  {
    if x != 0 && length != 0 {
      CoverAtPos(x, length);
      PosOrder(x, length);
    }
  }

  /** getMaskLengthByLowBit reads back the length getMaskByLength was given. */
  lemma {:induction false} LengthOfMask(length: nat)
    requires length <= 32
    ensures GetMaskLengthByLowBit(GetMaskByLength(length)) == length
  {
    if length != 0 {
      var m := GetMaskByLength(length);
      OnesNonZero(MaskPos(length));
      LowPosTop(m);
      OnesLowBit(MaskPos(length), LowPos(m));
      FloorLog2Below32(LowBit(m));
      ShiftCountValue(FloorLog2(LowBit(m)));
      ShiftCountValue(32 - length);
    }
  }

  lemma {:induction false} MaskAtLowPos(m: bv32)
    requires m != 0
    ensures GetMaskByLength(GetMaskLengthByLowBit(m)) == !0 << LowPos(m)
  {
    FloorLog2Below32(LowBit(m));
  }

  /** The masks are exactly the results of getMaskByLength, each at its own length. */
  lemma {:induction false} MaskOfLength(m: bv32)
    ensures IsMaskBits(m) <==> m == GetMaskByLength(GetMaskLengthByLowBit(m))
  {
    MaskIsMask(GetMaskLengthByLowBit(m));
    if m != 0 {
      MaskAtLowPos(m);
      LowPosTop(m);
      MaskFromLowBit(m, LowPos(m));
    }
  }

  lemma {:induction false} GapAt(m: bv32, i: bv5, j: bv5)
    requires LowBit(m) >> i == 1 && (!m & (0 - m)) >> j == 1
    ensures i <= j && Bit(m, i) && !Bit(m, j)
  {
    LowBitIsSet(m, i);
    GapIsClear(m, j);
    GapAboveLowBit(m, i, j);
    TopIsSet(!m & (0 - m), j);
  }

  /** x >> i == 1: bit i is the highest set bit of x. */
  predicate TopAt(x: bv32, i: bv5) {
    x >> i == 1
  }

  /** Every nonzero bitset has a highest set bit. */
  lemma {:induction false} HasTop(x: bv32)
    requires x != 0
    ensures exists i: bv5 :: TopAt(x, i)
  {
    FloorLog2Top(x);
    assert TopAt(x, HighPos(x));
  }

  lemma {:induction false} GapBits(m: bv32)
    requires !IsMaskBits(m)
    ensures exists i: bv5, j: bv5 :: i <= j && Bit(m, i) && !Bit(m, j)
  {
    assert m != 0;
    var d := !m & (0 - m);
    HasTop(LowBit(m));
    HasTop(d);
    var i :| TopAt(LowBit(m), i);
    var j :| TopAt(d, j);
    GapAt(m, i, j);
  }

  /** isMask holds exactly when the ones of the bitset are a run from the top bit down. */
  lemma {:induction false} MaskIsContiguous(m: bv32)
    ensures IsMaskBits(m) <==> Contiguous(m)
  {
    if IsMaskBits(m) {
      forall i: bv5, j: bv5 | i <= j && Bit(m, i)
        ensures Bit(m, j)
      {
        MaskUpward(m, i, j);
      }
    } else {
      GapBits(m);
    }
  }

  /** On dotted quads: isMask holds exactly for the mask texts of lengths 0 to 32, and getMaskLength names the length. */
  lemma {:induction false} IsMaskText(ip: string)
    requires IsDottedQuad(ip)
    ensures IsMask(ip) <==> ip == Render(GetMaskByLength(GetMaskLength(ip)))
  {
    MaskOfLength(Address(ip));
    RenderOfAddress(ip);
    AddressOfRender(GetMaskByLength(GetMaskLength(ip)));
  }

  /** The text of the mask of length L is a mask whose getMaskLength is L. */
  lemma {:induction false} MaskTextLength(length: nat)
    requires length <= 32
    ensures IsDottedQuad(Render(GetMaskByLength(length)))
    ensures IsMask(Render(GetMaskByLength(length)))
    ensures GetMaskLength(Render(GetMaskByLength(length))) == length
  {
    AddressOfRender(GetMaskByLength(length));
    MaskIsMask(length);
    LengthOfMask(length);
  }
}
