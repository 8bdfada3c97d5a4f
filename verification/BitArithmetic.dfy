/** Zigzag codes, the bit count, and the masks of IP prefixes. */
module BitArithmetic {

  // ---------------------------------------------------------------- zigzag

  lemma DecodesNegative32(v: bv32)
    requires v >= 0x8000_0000
    ensures (((0 - v) * 2 - 1) >> 1) ^ (0 - (((0 - v) * 2 - 1) & 1)) == v
  {
  }

  lemma DecodesOther32(v: bv32)
    requires v < 0x8000_0000
    ensures ((v * 2) >> 1) ^ (0 - ((v * 2) & 1)) == v
  {
  }

  function DecodeZigzag32(v: bv32): bv32 {
    (v >> 1) ^ (0 - (v & 1))
  }

  /** Decoding inverts encoding for every value, the most negative one included. */
  function EncodeZigzag32(v: bv32): (r: bv32)
    ensures DecodeZigzag32(r) == v
  {
    if v >= 0x8000_0000 then
      DecodesNegative32(v);
      (0 - v) * 2 - 1
    else
      DecodesOther32(v);
      v * 2
  }

  lemma DecodesNegative64(v: bv64)
    requires v >= 0x8000_0000_0000_0000
    ensures (((0 - v) * 2 - 1) >> 1) ^ (0 - (((0 - v) * 2 - 1) & 1)) == v
  {
  }

  lemma DecodesOther64(v: bv64)
    requires v < 0x8000_0000_0000_0000
    ensures ((v * 2) >> 1) ^ (0 - ((v * 2) & 1)) == v
  {
  }

  function DecodeZigzag64(v: bv64): bv64 {
    (v >> 1) ^ (0 - (v & 1))
  }

  function EncodeZigzag64(v: bv64): (r: bv64)
    ensures DecodeZigzag64(r) == v
  {
    if v >= 0x8000_0000_0000_0000 then
      DecodesNegative64(v);
      (0 - v) * 2 - 1
    else
      DecodesOther64(v);
      v * 2
  }

  lemma NegativeCode32(v: bv32)
    requires v >= 0x8000_0000
    ensures v >> 31 == 1 && ((0 - v) * 2 - 1) & 1 == 1 && ((0 - v) * 2 - 1) >> 1 == !v
  {
  }

  lemma OtherCode32(v: bv32)
    requires v < 0x8000_0000
    ensures v >> 31 == 0 && (v * 2) & 1 == 0 && (v * 2) >> 1 == v
  {
  }

  /** The lowest bit of a code is the sign, and the others the value, or its complement when it is negative. */
  lemma SignIsLowest32(v: bv32)
    ensures EncodeZigzag32(v) & 1 == v >> 31
    ensures EncodeZigzag32(v) >> 1 == if v >= 0x8000_0000 then !v else v
  {
    hide DecodeZigzag32;
    if v >= 0x8000_0000 { NegativeCode32(v); } else { OtherCode32(v); }
  }

  lemma NegativeCode64(v: bv64)
    requires v >= 0x8000_0000_0000_0000
    ensures v >> 63 == 1 && ((0 - v) * 2 - 1) & 1 == 1 && ((0 - v) * 2 - 1) >> 1 == !v
  {
  }

  lemma OtherCode64(v: bv64)
    requires v < 0x8000_0000_0000_0000
    ensures v >> 63 == 0 && (v * 2) & 1 == 0 && (v * 2) >> 1 == v
  {
  }

  lemma SignIsLowest64(v: bv64)
    ensures EncodeZigzag64(v) & 1 == v >> 63
    ensures EncodeZigzag64(v) >> 1 == if v >= 0x8000_0000_0000_0000 then !v else v
  {
    hide DecodeZigzag64;
    if v >= 0x8000_0000_0000_0000 { NegativeCode64(v); } else { OtherCode64(v); }
  }

  lemma OddIsACode(r: bv32)
    requires r & 1 == 1
    ensures (r >> 1) ^ (0 - (r & 1)) >= 0x8000_0000 && (0 - ((r >> 1) ^ (0 - (r & 1)))) * 2 - 1 == r
  {
  }

  lemma EvenIsACode(r: bv32)
    requires r & 1 == 0
    ensures (r >> 1) ^ (0 - (r & 1)) < 0x8000_0000 && ((r >> 1) ^ (0 - (r & 1))) * 2 == r
  {
  }

  lemma EvenOrOdd(r: bv32)
    ensures r & 1 == 0 || r & 1 == 1
  {
  }

  /** The codes are dense: every 32-bit word is the code of the value it decodes to. */
  lemma EveryWordIsACode(r: bv32)
    ensures EncodeZigzag32(DecodeZigzag32(r)) == r
  {
    EvenOrOdd(r);
    if r & 1 == 1 { OddIsACode(r); } else { EvenIsACode(r); }
  }

  // ---------------------------------------------------------------- counting bits

  function Bit(v: bv32): nat {
    if v & 1 == 1 then 1 else 0
  }

  function Half(v: bv32): bv32 {
    v >> 1
  }

  /** v without its lowest set bit. */
  function Cleared(v: bv32): bv32 {
    v & (v - 1)
  }

  /** The number of set bits. */
  function Ones(v: bv32): nat
    decreases v
  {
    if v == 0 then 0
    else
      assert v >> 1 < v;
      Bit(v) + Ones(Half(v))
  }

  lemma ClearOdd(v: bv32)
    requires Bit(v) == 1
    ensures Half(Cleared(v)) == Half(v) && Bit(Cleared(v)) == 0
  {
  }

  lemma ClearEven(v: bv32)
    requires Bit(v) == 0 && v != 0
    ensures Half(Cleared(v)) == Cleared(Half(v)) && Bit(Cleared(v)) == 0 && Half(v) != 0
  {
  }

  lemma Shrinks(v: bv32)
    requires v != 0
    ensures Cleared(v) < v && Half(v) < v
  {
  }

  lemma OnesStep(v: bv32)
    ensures Ones(v) == Bit(v) + Ones(Half(v))
  {
    if v == 0 {
      assert Half(v) == 0;
    }
  }

  /** Clearing the lowest set bit takes one away. */
  lemma {:induction false} OnesOfCleared(v: bv32)
    requires v != 0
    ensures Ones(v) == 1 + Ones(Cleared(v))
    decreases v
  {
    hide Ones, Half, Cleared, Bit;
    Shrinks(v);
    OnesStep(v);
    OnesStep(Cleared(v));
    if Bit(v) == 1 {
      ClearOdd(v);
    } else {
      IsBit(v);
      ClearEven(v);
      OnesOfCleared(Half(v));
    }
  }

  lemma IsBit(v: bv32)
    ensures Bit(v) == 0 || Bit(v) == 1
  {
  }

  /** CountOneNumbers. */
  method CountOneNumbers(value: bv32) returns (ret: nat)
    ensures ret == Ones(value)
  {
    var v := value;
    ret := 0;
    while v != 0
      invariant ret + Ones(v) == Ones(value)
      decreases v
    {
      Shrinks(v);
      OnesOfCleared(v);
      v := v & (v - 1);
      ret := ret + 1;
    }
  }

  // ---------------------------------------------------------------- IPv4 prefixes

  /** byteswapOnLittleEndian. */
  function Swap(v: bv32): bv32 {
    (v << 24) | ((v & 0xff00) << 8) | ((v >> 8) & 0xff00) | (v >> 24)
  }

  /** CreateMask<uint32_t>, for prefixes that keep at least one bit. */
  function CreateMask32(prefix: nat): bv32
    requires 1 <= prefix <= 32
  {
    (1 << (32 - prefix)) - 1
  }

  /** BroadcastAddress and SubnetMask, on addresses in network order. */
  function Broadcast4(address: bv32, prefix: nat): bv32
    requires 1 <= prefix <= 32
  {
    address | Swap(CreateMask32(prefix))
  }

  function Subnet4(prefix: nat): bv32
    requires 1 <= prefix <= 32
  {
    !Swap(CreateMask32(prefix))
  }

  /** The broadcast address sets exactly the bits outside the subnet mask. */
  lemma BroadcastFillsHost(address: bv32, prefix: nat)
    requires 1 <= prefix <= 32
    ensures Broadcast4(address, prefix) == address | !Subnet4(prefix)
  {
    NotTwice(Swap(CreateMask32(prefix)));
  }

  lemma NotTwice(v: bv32)
    ensures !!v == v
  {
  }

  lemma SwapNot(v: bv32)
    ensures !Swap(v) == Swap(!v)
  {
  }

  function LowByte(v: bv32): bv32 {
    v & 0xff
  }

  function Behind8(v: bv32): bv32 {
    v >> 8
  }

  function LowOnes(v: bv32): nat {
    Bit(v) + Bit(v >> 1) + Bit(v >> 2) + Bit(v >> 3) + Bit(v >> 4) + Bit(v >> 5) + Bit(v >> 6) + Bit(v >> 7)
  }

  lemma HalvesAre(v: bv32)
    ensures Half(v) == v >> 1 && Half(v >> 1) == v >> 2 && Half(v >> 2) == v >> 3 && Half(v >> 3) == v >> 4
    ensures Half(v >> 4) == v >> 5 && Half(v >> 5) == v >> 6 && Half(v >> 6) == v >> 7 && Half(v >> 7) == Behind8(v)
  {
  }

  /** The first eight steps of a count. */
  lemma EightSteps(v: bv32)
    ensures Ones(v) == LowOnes(v) + Ones(Behind8(v))
  {
    hide Ones, Half, Bit, Behind8;
    var (v1, v2, v3) := (v >> 1, v >> 2, v >> 3);
    var (v4, v5, v6, v7) := (v >> 4, v >> 5, v >> 6, v >> 7);
    HalvesAre(v);
    AddSteps(v, v1, v2, v3, v4, v5, v6, v7, Behind8(v));
  }

  lemma AddSteps(v: bv32, v1: bv32, v2: bv32, v3: bv32, v4: bv32, v5: bv32, v6: bv32, v7: bv32, v8: bv32)
    requires Half(v) == v1 && Half(v1) == v2 && Half(v2) == v3 && Half(v3) == v4
    requires Half(v4) == v5 && Half(v5) == v6 && Half(v6) == v7 && Half(v7) == v8
    ensures Ones(v) == Bit(v) + Bit(v1) + Bit(v2) + Bit(v3) + Bit(v4) + Bit(v5) + Bit(v6) + Bit(v7) + Ones(v8)
  {
    hide Ones, Half, Bit;
    OnesStep(v);
    OnesStep(v1);
    OnesStep(v2);
    OnesStep(v3);
    OnesStep(v4);
    OnesStep(v5);
    OnesStep(v6);
    OnesStep(v7);
  }

  lemma SameLowOnes(v: bv32)
    ensures LowOnes(v) == LowOnes(LowByte(v)) && Behind8(LowByte(v)) == 0
  {
    SameLowBits(v);
    hide Bit;
  }

  lemma SameLowBits(v: bv32)
    ensures var w := LowByte(v);
            && Bit(w) == Bit(v) && Bit(w >> 1) == Bit(v >> 1) && Bit(w >> 2) == Bit(v >> 2) && Bit(w >> 3) == Bit(v >> 3)
            && Bit(w >> 4) == Bit(v >> 4) && Bit(w >> 5) == Bit(v >> 5) && Bit(w >> 6) == Bit(v >> 6)
            && Bit(w >> 7) == Bit(v >> 7) && Behind8(w) == 0
  {
  }

  /** The bits of the lowest byte, and the rest. */
  lemma OnesOfLowByte(v: bv32)
    ensures Ones(v) == Ones(LowByte(v)) + Ones(Behind8(v))
  {
    hide Ones, LowByte, Behind8, LowOnes;
    EightSteps(v);
    EightSteps(LowByte(v));
    SameLowOnes(v);
    NoOnes();
  }

  lemma NoOnes()
    ensures Ones(0) == 0
  {
  }

  /** The bits of a word, byte by byte. */
  lemma OnesByBytes(v: bv32)
    ensures Ones(v) == Ones(v & 0xff) + Ones((v >> 8) & 0xff) + Ones((v >> 16) & 0xff) + Ones(v >> 24)
  {
    hide Ones, LowByte, Behind8;
    OnesOfLowByte(v);
    OnesOfLowByte(Behind8(v));
    OnesOfLowByte(Behind8(Behind8(v)));
    BytesShift(v);
  }

  lemma BytesShift(v: bv32)
    ensures LowByte(v) == v & 0xff && LowByte(Behind8(v)) == (v >> 8) & 0xff
    ensures LowByte(Behind8(Behind8(v))) == (v >> 16) & 0xff && Behind8(Behind8(Behind8(v))) == v >> 24
  {
  }

  lemma SwappedBytes(v: bv32)
    ensures var w := Swap(v);
            && w & 0xff == v >> 24 && (w >> 8) & 0xff == (v >> 16) & 0xff
            && (w >> 16) & 0xff == (v >> 8) & 0xff && w >> 24 == v & 0xff
  {
  }

  lemma OnesOfSwap(v: bv32)
    ensures Ones(Swap(v)) == Ones(v)
  {
    hide Ones, Swap;
    OnesByBytes(v);
    OnesByBytes(Swap(v));
    SwappedBytes(v);
  }

  /** The complement of a mask of k low bits, as the next power of two less one is complemented. */
  function HighBits(k: nat): bv32
    requires k <= 31
  {
    !((1 << k) - 1)
  }

  lemma NextHighBits(k: nat)
    requires k < 31
    ensures HighBits(k) != 0 && Cleared(HighBits(k)) == HighBits(k + 1)
  {
  }

  lemma {:induction false} OnesOfHighBits(k: nat)
    requires k <= 31
    ensures Ones(HighBits(k)) == 32 - k
  {
    hide Ones, HighBits, Cleared;
    if k == 0 {
      AllOnes();
    } else {
      OnesOfHighBits(k - 1);
      NextHighBits(k - 1);
      OnesOfCleared(HighBits(k - 1));
    }
  }

  lemma AllOnes()
    ensures Ones(HighBits(0)) == 32
  {
    hide Ones;
    assert HighBits(0) == 0xffff_ffff;
    OnesByBytes(0xffff_ffff);
    assert LowOnes(0xff) == 8 && Behind8(0xff) == 0;
    EightSteps(0xff);
    NoOnes();
  }

  /** The subnet mask of a prefix has as many bits as the prefix says. */
  lemma SubnetHasPrefix(prefix: nat)
    requires 1 <= prefix <= 32
    ensures Ones(Subnet4(prefix)) == prefix
  {
    hide Ones, Swap;
    SwapNot(CreateMask32(prefix));
    OnesOfSwap(HighBits(32 - prefix));
    OnesOfHighBits(32 - prefix);
  }

  /**
   Bit j of an IPv4 address as it lies in memory, the highest bit of the first byte first; the word's lowest
   byte is the first.
   */
  predicate BitInOrder(v: bv32, j: nat)
    requires j < 32
  {
    HighestFirst(ByteInOrder(v, j / 8), j % 8)
  }

  /** Bit k of a byte, the highest first. */
  predicate HighestFirst(x: bv32, k: nat)
    requires k < 8
  {
    (x >> (7 - k)) & 1 == 1
  }

  function ByteInOrder(v: bv32, b: nat): bv32
    requires b < 4
  {
    if b == 0 then v & 0xff else if b == 1 then (v >> 8) & 0xff else if b == 2 then (v >> 16) & 0xff else v >> 24
  }

  /** A byte with its k highest bits set. */
  function TopBits(k: nat): bv32
    requires k < 8
  {
    0xff & !(0xff >> k)
  }

  lemma FirstByteMask(prefix: nat)
    requires 1 <= prefix < 8
    ensures ByteInOrder(Subnet4(prefix), 0) == TopBits(prefix) && ByteInOrder(Subnet4(prefix), 1) == 0
    ensures ByteInOrder(Subnet4(prefix), 2) == 0 && ByteInOrder(Subnet4(prefix), 3) == 0
  {
    if prefix == 1 {} else if prefix == 2 {} else if prefix == 3 {} else if prefix == 4 {}
    else if prefix == 5 {} else if prefix == 6 {} else {}
  }

  lemma SecondByteMask(prefix: nat)
    requires 8 <= prefix < 16
    ensures ByteInOrder(Subnet4(prefix), 0) == 0xff && ByteInOrder(Subnet4(prefix), 1) == TopBits(prefix - 8)
    ensures ByteInOrder(Subnet4(prefix), 2) == 0 && ByteInOrder(Subnet4(prefix), 3) == 0
  {
    if prefix == 8 {} else if prefix == 9 {} else if prefix == 10 {} else if prefix == 11 {}
    else if prefix == 12 {} else if prefix == 13 {} else if prefix == 14 {} else {}
  }

  lemma ThirdByteMask(prefix: nat)
    requires 16 <= prefix < 24
    ensures ByteInOrder(Subnet4(prefix), 0) == 0xff && ByteInOrder(Subnet4(prefix), 1) == 0xff
    ensures ByteInOrder(Subnet4(prefix), 2) == TopBits(prefix - 16) && ByteInOrder(Subnet4(prefix), 3) == 0
  {
    if prefix == 16 {} else if prefix == 17 {} else if prefix == 18 {} else if prefix == 19 {}
    else if prefix == 20 {} else if prefix == 21 {} else if prefix == 22 {} else {}
  }

  lemma FourthByteMask(prefix: nat)
    requires 24 <= prefix < 32
    ensures ByteInOrder(Subnet4(prefix), 0) == 0xff && ByteInOrder(Subnet4(prefix), 1) == 0xff
    ensures ByteInOrder(Subnet4(prefix), 2) == 0xff && ByteInOrder(Subnet4(prefix), 3) == TopBits(prefix - 24)
  {
    if prefix == 24 {} else if prefix == 25 {} else if prefix == 26 {} else if prefix == 27 {}
    else if prefix == 28 {} else if prefix == 29 {} else if prefix == 30 {} else {}
  }

  lemma FullMask(b: nat)
    requires b < 4
    ensures ByteInOrder(Subnet4(32), b) == 0xff
  {
  }

  /** The byte at b of the mask. */
  lemma MaskByte(prefix: nat, b: nat)
    requires 1 <= prefix <= 32 && b < 4
    ensures ByteInOrder(Subnet4(prefix), b) == if b < prefix / 8 then 0xff else if b > prefix / 8 then 0 else TopBits(prefix % 8)
  {
    hide TopBits, ByteInOrder, Subnet4;
    if prefix < 8 { FirstByteMask(prefix); } else if prefix < 16 { SecondByteMask(prefix); }
    else if prefix < 24 { ThirdByteMask(prefix); } else if prefix < 32 { FourthByteMask(prefix); } else { FullMask(b); }
  }

  lemma TopBit(k: nat, t: nat)
    requires k < 8 && t < 8
    ensures HighestFirst(TopBits(k), t) <==> t < k
  {
    if k == 0 {} else if k == 1 {} else if k == 2 {} else if k == 3 {} else if k == 4 {} else if k == 5 {}
    else if k == 6 {} else {}
  }

  lemma FullBits(t: nat)
    requires t < 8
    ensures HighestFirst(0xff, t) && !HighestFirst(0, t)
  {
  }

  /** And where they stand: bit j of the mask is set if and only if j lies within the prefix. */
  lemma SubnetMask4(prefix: nat, j: nat)
    requires 1 <= prefix <= 32 && j < 32
    ensures BitInOrder(Subnet4(prefix), j) <==> j < prefix
  {
    hide TopBits, ByteInOrder, Subnet4, HighestFirst;
    MaskByte(prefix, j / 8);
    TopBit(prefix % 8, j % 8);
    FullBits(j % 8);
  }

  /** The broadcast address has the bits of the address within the prefix, and all bits behind it. */
  lemma BroadcastBits(address: bv32, prefix: nat, j: nat)
    requires 1 <= prefix <= 32 && j < 32
    ensures BitInOrder(Broadcast4(address, prefix), j) <==> j >= prefix || BitInOrder(address, j)
  {
    hide Subnet4, Broadcast4, BitInOrder;
    SubnetMask4(prefix, j);
    BroadcastFillsHost(address, prefix);
    assert Broadcast4(address, prefix) == OrNot(address, Subnet4(prefix));
    OrNotBit(address, Subnet4(prefix), j);
  }

  function OrNot(v: bv32, m: bv32): bv32 {
    v | !m
  }

  function OrNotLow(x: bv32, y: bv32): bv32 {
    x | (!y & 0xff)
  }

  lemma OrNotBit(v: bv32, m: bv32, j: nat)
    requires j < 32
    ensures BitInOrder(OrNot(v, m), j) <==> BitInOrder(v, j) || !BitInOrder(m, j)
  {
    hide ByteInOrder, OrNot, OrNotLow, HighestFirst;
    OrNotByte(v, m, j / 8);
    BitOfByte(ByteInOrder(v, j / 8), ByteInOrder(m, j / 8), j % 8);
  }

  lemma OrNotBytes(v: bv32, m: bv32)
    ensures ByteInOrder(OrNot(v, m), 0) == OrNotLow(ByteInOrder(v, 0), ByteInOrder(m, 0))
    ensures ByteInOrder(OrNot(v, m), 1) == OrNotLow(ByteInOrder(v, 1), ByteInOrder(m, 1))
    ensures ByteInOrder(OrNot(v, m), 2) == OrNotLow(ByteInOrder(v, 2), ByteInOrder(m, 2))
    ensures ByteInOrder(OrNot(v, m), 3) == OrNotLow(ByteInOrder(v, 3), ByteInOrder(m, 3))
  {
  }

  lemma OrNotByte(v: bv32, m: bv32, b: nat)
    requires b < 4
    ensures ByteInOrder(OrNot(v, m), b) == OrNotLow(ByteInOrder(v, b), ByteInOrder(m, b))
  {
    OrNotBytes(v, m);
    hide *;
  }

  lemma BitOfByte(x: bv32, y: bv32, k: nat)
    requires k < 8
    ensures HighestFirst(OrNotLow(x, y), k) <==> HighestFirst(x, k) || !HighestFirst(y, k)
  {
    if k == 0 {} else if k == 1 {} else if k == 2 {} else if k == 3 {} else if k == 4 {} else if k == 5 {}
    else if k == 6 {} else {}
  }

  // ---------------------------------------------------------------- IPv6 prefixes

  /** CreateMask<uint8_t>. */
  function CreateMask8(k: nat): bv8
    requires k < 8
  {
    if k == 0 then 0xff else (1 << (8 - k)) - 1
  }

  /** The byte at i of the subnet mask. */
  function SubnetByte(prefix: nat, i: nat): bv8
    requires prefix < 128 && i < 16
  {
    if i < prefix / 8 then 0xff else if i == prefix / 8 then !CreateMask8(prefix % 8) else 0
  }

  /** Bit j of sixteen bytes, the highest first. */
  predicate BitAt(s: seq<bv8>, j: nat)
    requires |s| == 16 && j < 128
  {
    (s[j / 8] >> (7 - j % 8)) & 1 == 1
  }

  lemma MaskBit(k: nat, t: nat)
    requires k < 8 && t < 8
    ensures ((!CreateMask8(k)) >> (7 - t)) & 1 == 1 <==> t < k
  {
    if k == 0 {} else if k == 1 {} else if k == 2 {} else if k == 3 {} else if k == 4 {} else if k == 5 {}
    else if k == 6 {} else {}
  }

  lemma FullByte(t: nat)
    requires t < 8
    ensures ((0xff as bv8) >> (7 - t)) & 1 == 1 && !(((0 as bv8) >> (7 - t)) & 1 == 1)
  {
  }

  /** IPv6Address::SubnetMask: bit j is set if and only if j lies within the prefix. */
  method SubnetMask6(prefix: nat) returns (a: array<bv8>)
    requires prefix < 128
    ensures fresh(a) && a.Length == 16
    ensures forall i :: 0 <= i < 16 ==> a[i] == SubnetByte(prefix, i)
    ensures forall j :: 0 <= j < 128 ==> (BitAt(a[..], j) <==> j < prefix)
  {
    a := new bv8[16](_ => 0);
    a[prefix / 8] := !CreateMask8(prefix % 8);
    var i := 0;
    while i < prefix / 8
      invariant 0 <= i <= prefix / 8
      invariant forall k :: 0 <= k < i ==> a[k] == 0xff
      invariant a[prefix / 8] == !CreateMask8(prefix % 8)
      invariant forall k :: prefix / 8 < k < 16 ==> a[k] == 0
    {
      a[i] := 0xff;
      i := i + 1;
    }
    forall j | 0 <= j < 128
      ensures BitAt(a[..], j) <==> j < prefix
    {
      SubnetBit(a[..], prefix, j);
    }
  }

  lemma SubnetBit(s: seq<bv8>, prefix: nat, j: nat)
    requires |s| == 16 && prefix < 128 && j < 128 && s[j / 8] == SubnetByte(prefix, j / 8)
    ensures BitAt(s, j) <==> j < prefix
  {
    hide CreateMask8;
    MaskBit(prefix % 8, j % 8);
    FullByte(j % 8);
  }

  function SetBits(v: bv8, mask: bv8): bv8 {
    v | mask
  }

  /** A byte of an address with its bits outside the prefix set. */
  function HostFilled(v: bv8, prefix: nat, k: nat): bv8
    requires prefix < 128 && k < 16
  {
    v | !SubnetByte(prefix, k)
  }

  /** IPv6Address::BroadcastAddress: the address with every bit outside the prefix set. */
  method Broadcast6(address: array<bv8>, prefix: nat) returns (a: array<bv8>)
    requires address.Length == 16 && prefix < 128
    ensures fresh(a) && a.Length == 16
    ensures forall i :: 0 <= i < 16 ==> a[i] == HostFilled(address[i], prefix, i)
  {
    hide CreateMask8, SetBits, HostFilled;
    a := new bv8[16](i requires 0 <= i < 16 reads address => address[i]);
    var b := prefix / 8;
    var m := CreateMask8(prefix % 8);
    a[b] := SetBits(a[b], m);
    var i := b + 1;
    while i < 16
      invariant b + 1 <= i <= 16
      invariant forall k :: 0 <= k < b ==> a[k] == address[k]
      invariant a[b] == SetBits(address[b], m)
      invariant forall k :: b < k < i ==> a[k] == 0xff
    {
      a[i] := 0xff;
      i := i + 1;
    }
    forall k | 0 <= k < 16
      ensures a[k] == HostFilled(address[k], prefix, k)
    {
      FilledByte(address[k], prefix, k);
    }
  }

  lemma FilledByte(v: bv8, prefix: nat, k: nat)
    requires prefix < 128 && k < 16
    ensures HostFilled(v, prefix, k)
            == if k < prefix / 8 then v else if k == prefix / 8 then SetBits(v, CreateMask8(prefix % 8)) else 0xff
  {
    hide CreateMask8;
    OrIsFull(v, CreateMask8(prefix % 8));
  }

  lemma OrIsFull(v: bv8, m: bv8)
    ensures v | !0 == 0xff && v | !0xff == v && !!m == m
  {
  }
}
