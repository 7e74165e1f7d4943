/** The table-driven CRC-7 of the SD protocol against polynomial long division over GF(2). */
module Crc7 {
  /** Entry of a table row by the low four bits of the index. */
  function Pick(i: bv16, v0: bv8, v1: bv8, v2: bv8, v3: bv8, v4: bv8, v5: bv8, v6: bv8, v7: bv8,
                v8: bv8, v9: bv8, vA: bv8, vB: bv8, vC: bv8, vD: bv8, vE: bv8, vF: bv8): (v: bv8)
  {
    var k := i & 0xF;
    if k == 0 then v0 else if k == 1 then v1 else if k == 2 then v2 else if k == 3 then v3
    else if k == 4 then v4 else if k == 5 then v5 else if k == 6 then v6 else if k == 7 then v7
    else if k == 8 then v8 else if k == 9 then v9 else if k == 10 then vA else if k == 11 then vB
    else if k == 12 then vC else if k == 13 then vD else if k == 14 then vE else vF
  }

  /** The lookup table, sixteen entries a row. */
  function Table(i: bv16): (v: bv8)
    requires i < 0x100
    ensures v < 0x80
  {
    if i < 0x10 then Pick(i, 0x00, 0x09, 0x12, 0x1b, 0x24, 0x2d, 0x36, 0x3f, 0x48, 0x41, 0x5a, 0x53, 0x6c, 0x65, 0x7e, 0x77)
    else if i < 0x20 then Pick(i, 0x19, 0x10, 0x0b, 0x02, 0x3d, 0x34, 0x2f, 0x26, 0x51, 0x58, 0x43, 0x4a, 0x75, 0x7c, 0x67, 0x6e)
    else if i < 0x30 then Pick(i, 0x32, 0x3b, 0x20, 0x29, 0x16, 0x1f, 0x04, 0x0d, 0x7a, 0x73, 0x68, 0x61, 0x5e, 0x57, 0x4c, 0x45)
    else if i < 0x40 then Pick(i, 0x2b, 0x22, 0x39, 0x30, 0x0f, 0x06, 0x1d, 0x14, 0x63, 0x6a, 0x71, 0x78, 0x47, 0x4e, 0x55, 0x5c)
    else if i < 0x50 then Pick(i, 0x64, 0x6d, 0x76, 0x7f, 0x40, 0x49, 0x52, 0x5b, 0x2c, 0x25, 0x3e, 0x37, 0x08, 0x01, 0x1a, 0x13)
    else if i < 0x60 then Pick(i, 0x7d, 0x74, 0x6f, 0x66, 0x59, 0x50, 0x4b, 0x42, 0x35, 0x3c, 0x27, 0x2e, 0x11, 0x18, 0x03, 0x0a)
    else if i < 0x70 then Pick(i, 0x56, 0x5f, 0x44, 0x4d, 0x72, 0x7b, 0x60, 0x69, 0x1e, 0x17, 0x0c, 0x05, 0x3a, 0x33, 0x28, 0x21)
    else if i < 0x80 then Pick(i, 0x4f, 0x46, 0x5d, 0x54, 0x6b, 0x62, 0x79, 0x70, 0x07, 0x0e, 0x15, 0x1c, 0x23, 0x2a, 0x31, 0x38)
    else if i < 0x90 then Pick(i, 0x41, 0x48, 0x53, 0x5a, 0x65, 0x6c, 0x77, 0x7e, 0x09, 0x00, 0x1b, 0x12, 0x2d, 0x24, 0x3f, 0x36)
    else if i < 0xA0 then Pick(i, 0x58, 0x51, 0x4a, 0x43, 0x7c, 0x75, 0x6e, 0x67, 0x10, 0x19, 0x02, 0x0b, 0x34, 0x3d, 0x26, 0x2f)
    else if i < 0xB0 then Pick(i, 0x73, 0x7a, 0x61, 0x68, 0x57, 0x5e, 0x45, 0x4c, 0x3b, 0x32, 0x29, 0x20, 0x1f, 0x16, 0x0d, 0x04)
    else if i < 0xC0 then Pick(i, 0x6a, 0x63, 0x78, 0x71, 0x4e, 0x47, 0x5c, 0x55, 0x22, 0x2b, 0x30, 0x39, 0x06, 0x0f, 0x14, 0x1d)
    else if i < 0xD0 then Pick(i, 0x25, 0x2c, 0x37, 0x3e, 0x01, 0x08, 0x13, 0x1a, 0x6d, 0x64, 0x7f, 0x76, 0x49, 0x40, 0x5b, 0x52)
    else if i < 0xE0 then Pick(i, 0x3c, 0x35, 0x2e, 0x27, 0x18, 0x11, 0x0a, 0x03, 0x74, 0x7d, 0x66, 0x6f, 0x50, 0x59, 0x42, 0x4b)
    else if i < 0xF0 then Pick(i, 0x17, 0x1e, 0x05, 0x0c, 0x33, 0x3a, 0x21, 0x28, 0x5f, 0x56, 0x4d, 0x44, 0x7b, 0x72, 0x69, 0x60)
    else Pick(i, 0x0e, 0x07, 0x1c, 0x15, 0x2a, 0x23, 0x38, 0x31, 0x46, 0x4f, 0x54, 0x5d, 0x62, 0x6b, 0x70, 0x79)
  }

  /** The generator x^7 + x^3 + 1, highest power first. */
  const G: seq<bool> := [true, false, false, false, true, false, false, true]

  const ZERO7: seq<bool> := [false, false, false, false, false, false, false]

  function Xor(a: seq<bool>, b: seq<bool>): (r: seq<bool>)
    requires |a| == |b|
    ensures |r| == |a| && forall i :: 0 <= i < |a| ==> r[i] == (a[i] != b[i])
  {
    seq(|a|, i requires 0 <= i < |a| => a[i] != b[i])
  }

  /** Schoolbook division by the generator, highest power first; what stays below degree 7 is the remainder. */
  function LongDivision(w: seq<bool>): (r: seq<bool>)
    ensures |w| >= 7 ==> |r| == 7
    decreases |w|
  {
    if |w| <= 7 then w
    else if w[0] then LongDivision(Xor(w[..8], G)[1..] + w[8..])
    else LongDivision(w[1..])
  }

  /** One step of a shift register that takes in a message bit at its top end. */
  function Shift(reg: seq<bool>, bit: bool): (r: seq<bool>)
    requires |reg| == 7
    ensures |r| == 7
  {
    if reg[0] != bit then Xor(reg[1..] + [false], G[1..]) else reg[1..] + [false]
  }

  function Register(reg: seq<bool>, bits: seq<bool>): (r: seq<bool>)
    requires |reg| == 7
    ensures |r| == 7
    decreases |bits|
  {
    if bits == [] then reg else Register(Shift(reg, bits[0]), bits[1..])
  }

  /** The register laid over the next seven message bits. */
  function Mixed(reg: seq<bool>, a: seq<bool>): (w: seq<bool>)
    requires |reg| == 7 <= |a|
  {
    Xor(reg, a[..7]) + a[7..]
  }

  lemma OverlayZero(a: seq<bool>)
    requires |a| >= 7
    ensures Mixed(ZERO7, a) == a
  {
  }

  /** A division step on the overlaid message is a register step. */
  lemma DivisionStep(reg: seq<bool>, a: seq<bool>)
    requires |reg| == 7 && |a| > 7
    ensures LongDivision(Mixed(reg, a)) == LongDivision(Mixed(Shift(reg, a[0]), a[1..]))
  {
    var w := Mixed(reg, a);
    var w' := Mixed(Shift(reg, a[0]), a[1..]);
    if w[0] {
      assert Xor(w[..8], G)[1..] + w[8..] == w';
    } else {
      assert w[1..] == w';
    }
  }

  lemma TailOfSum(a: seq<bool>, b: seq<bool>)
    requires a != []
    ensures (a + b)[1..] == a[1..] + b && (a + b)[0] == a[0]
  {
  }

  /** The register after a message is the remainder of the message followed by seven zero bits. */
  lemma {:induction false} RegisterDivides(reg: seq<bool>, bits: seq<bool>)
    requires |reg| == 7
    ensures LongDivision(Mixed(reg, bits + ZERO7)) == Register(reg, bits)
    decreases |bits|
  {
    if bits == [] {
      assert [] + ZERO7 == ZERO7 && Mixed(reg, ZERO7) == reg;
    } else {
      DivisionStep(reg, bits + ZERO7);
      TailOfSum(bits, ZERO7);
      RegisterDivides(Shift(reg, bits[0]), bits[1..]);
    }
  }

  predicate Bit(v: bv8, mask: bv8) { v & mask != 0 }

  /** One register step on an octet that holds the seven register bits. */
  function ShiftOctet(reg: bv8, bit: bool): (r: bv8)
    ensures r < 0x80
  {
    var moved := (reg << 1) & 0x7F;
    if (reg & 0x40 != 0) != bit then moved ^ 0x09 else moved
  }

  /** Eight register steps, one per bit of the octet, highest first. */
  function Feed(reg: bv8, b: bv8): (r: bv8)
    ensures r < 0x80
  {
    var r1 := ShiftOctet(ShiftOctet(reg, b & 0x80 != 0), b & 0x40 != 0);
    var r2 := ShiftOctet(ShiftOctet(r1, b & 0x20 != 0), b & 0x10 != 0);
    var r3 := ShiftOctet(ShiftOctet(r2, b & 0x08 != 0), b & 0x04 != 0);
    ShiftOctet(ShiftOctet(r3, b & 0x02 != 0), b & 0x01 != 0)
  }

  /** A table entry is what eight register steps make of its index. */
  lemma TableFeeds(i: bv16)
    requires i < 0x100
    ensures Table(i) == Feed(0, i as bv8)
  {
  }

  /** The register bits of an octet, highest power first. */
  function Bits7(v: bv8): (s: seq<bool>)
    ensures |s| == 7
  {
    [Bit(v, 0x40), Bit(v, 0x20), Bit(v, 0x10), Bit(v, 0x08), Bit(v, 0x04), Bit(v, 0x02), Bit(v, 0x01)]
  }

  function Bits8(v: bv8): (s: seq<bool>)
    ensures |s| == 8
  {
    [Bit(v, 0x80), Bit(v, 0x40), Bit(v, 0x20), Bit(v, 0x10), Bit(v, 0x08), Bit(v, 0x04), Bit(v, 0x02), Bit(v, 0x01)]
  }

  /** A message as one sequence of bits. */
  function MessageBits(data: seq<bv8>): (s: seq<bool>) {
    if data == [] then [] else MessageBits(data[..|data| - 1]) + Bits8(data[|data| - 1])
  }

  lemma MovedBits(v: bv8)
    ensures Bits7((v << 1) & 0x7F) == Bits7(v)[1..] + [false]
  {
    var m := (v << 1) & 0x7F;
    assert (m & 0x40 != 0) == (v & 0x20 != 0) && (m & 0x20 != 0) == (v & 0x10 != 0);
    assert (m & 0x10 != 0) == (v & 0x08 != 0) && (m & 0x08 != 0) == (v & 0x04 != 0);
    assert (m & 0x04 != 0) == (v & 0x02 != 0) && (m & 0x02 != 0) == (v & 0x01 != 0);
    assert m & 0x01 == 0;
  }

  lemma SumBits(m: bv8)
    ensures var s := m ^ 0x09;
      && (s & 0x40 != 0) == (m & 0x40 != 0) && (s & 0x20 != 0) == (m & 0x20 != 0) && (s & 0x10 != 0) == (m & 0x10 != 0)
      && (s & 0x08 != 0) == (m & 0x08 == 0) && (s & 0x04 != 0) == (m & 0x04 != 0) && (s & 0x02 != 0) == (m & 0x02 != 0)
      && (s & 0x01 != 0) == (m & 0x01 == 0)
  {
  }

  lemma ReducedBits(m: bv8)
    ensures Bits7(m ^ 0x09) == Xor(Bits7(m), G[1..])
  {
    SumBits(m);
    var a, s := Bits7(m), Bits7(m ^ 0x09);
    assert s == [a[0], a[1], a[2], !a[3], a[4], a[5], !a[6]];
    hide Bits7;
    assert G[1..] == [false, false, false, true, false, false, true];
  }

  lemma ShiftOctetShifts(v: bv8, bit: bool)
    requires v < 0x80
    ensures Bits7(ShiftOctet(v, bit)) == Shift(Bits7(v), bit)
  {
    assert Bits7(v)[0] == (v & 0x40 != 0);
    MovedBits(v);
    ReducedBits((v << 1) & 0x7F);
    hide Bits7;
  }

  function FeedBits(reg: bv8, bits: seq<bool>): (r: bv8)
    decreases |bits|
  {
    if bits == [] then reg else FeedBits(ShiftOctet(reg, bits[0]), bits[1..])
  }

  lemma TwoBits(reg: bv8, bits: seq<bool>)
    requires |bits| >= 2
    ensures FeedBits(reg, bits) == FeedBits(ShiftOctet(ShiftOctet(reg, bits[0]), bits[1]), bits[2..])
  {
    hide ShiftOctet;
    assert bits[1..][1..] == bits[2..];
  }

  lemma EightBits(reg: bv8, b: bv8)
    ensures FeedBits(reg, Bits8(b)) == Feed(reg, b)
  {
    var t := Bits8(b);
    var r1 := ShiftOctet(ShiftOctet(reg, t[0]), t[1]);
    var r2 := ShiftOctet(ShiftOctet(r1, t[2]), t[3]);
    var r3 := ShiftOctet(ShiftOctet(r2, t[4]), t[5]);
    hide ShiftOctet, FeedBits;
    assert Feed(reg, b) == ShiftOctet(ShiftOctet(r3, t[6]), t[7]);
    hide Feed, Bits8, Bits7;
    EightBitsOf(reg, t);
  }

  lemma EightBitsOf(reg: bv8, t: seq<bool>)
    requires |t| == 8
    ensures var r1 := ShiftOctet(ShiftOctet(reg, t[0]), t[1]);
      var r2 := ShiftOctet(ShiftOctet(r1, t[2]), t[3]);
      var r3 := ShiftOctet(ShiftOctet(r2, t[4]), t[5]);
      FeedBits(reg, t) == ShiftOctet(ShiftOctet(r3, t[6]), t[7])
  {
    var r1 := ShiftOctet(ShiftOctet(reg, t[0]), t[1]);
    var r2 := ShiftOctet(ShiftOctet(r1, t[2]), t[3]);
    var r3 := ShiftOctet(ShiftOctet(r2, t[4]), t[5]);
    var r4 := ShiftOctet(ShiftOctet(r3, t[6]), t[7]);
    assert FeedBits(r4, []) == r4;
    hide ShiftOctet, FeedBits;
    TwoBits(reg, t);
    TwoBits(r1, t[2..]);
    TwoBits(r2, t[4..]);
    TwoBits(r3, t[6..]);
    assert t[2..][2..] == t[4..] && t[4..][2..] == t[6..] && t[6..][2..] == [];
  }

  lemma {:induction false} FeedIsRegister(reg: bv8, bits: seq<bool>)
    requires reg < 0x80
    ensures FeedBits(reg, bits) < 0x80 && Bits7(FeedBits(reg, bits)) == Register(Bits7(reg), bits)
    decreases |bits|
  {
    hide Bits7, Shift;
    if bits != [] {
      ShiftOctetShifts(reg, bits[0]);
      FeedIsRegister(ShiftOctet(reg, bits[0]), bits[1..]);
    }
  }

  /** A register fed eight bits ends like a zero register fed the sum of the register, moved up one, and the bits. */
  lemma RegisterLinear(reg: seq<bool>, bits: seq<bool>)
    requires |reg| == 7 && |bits| == 8
    ensures Register(reg, bits) == Register(ZERO7, Xor(reg + [false], bits))
  {
    hide Register, LongDivision;
    var sum := Xor(reg + [false], bits);
    RegisterDivides(reg, bits);
    RegisterDivides(ZERO7, sum);
    SameOverlay(reg, bits);
  }

  lemma SameOverlay(reg: seq<bool>, bits: seq<bool>)
    requires |reg| == 7 && |bits| == 8
    ensures Mixed(reg, bits + ZERO7) == Mixed(ZERO7, Xor(reg + [false], bits) + ZERO7)
  {
    var sum := Xor(reg + [false], bits);
    assert (bits + ZERO7)[..7] == bits[..7] && (sum + ZERO7)[..7] == sum[..7];
    assert (bits + ZERO7)[7..] == [bits[7]] + ZERO7 && (sum + ZERO7)[7..] == [sum[7]] + ZERO7;
    assert Xor(reg, bits[..7]) == Xor(ZERO7, sum[..7]);
  }

  /** The table index stays in range, and its bits are the sum of the register, moved up one place, and the octet. */
  lemma IndexInRange(reg: bv8, d: bv8)
    requires reg < 0x80
    ensures ((reg as bv16) << 1) ^ (d as bv16) < 0x100
    ensures (((reg as bv16) << 1) ^ (d as bv16)) as bv8 == (reg << 1) ^ d
  {
  }

  lemma SumBit(reg: bv8, d: bv8, mask: bv8, half: bv8)
    requires half << 1 == mask && mask != 0 && mask & (mask - 1) == 0 && half < 0x80
    ensures Bit((reg << 1) ^ d, mask) == (Bit(reg, half) != Bit(d, mask))
  {
  }

  lemma LowBit(reg: bv8, d: bv8)
    ensures Bit((reg << 1) ^ d, 0x01) == Bit(d, 0x01)
  {
  }

  lemma IndexBitAt(reg: bv8, d: bv8, k: nat)
    requires k < 8
    ensures Bits8((reg << 1) ^ d)[k] == ((Bits7(reg) + [false])[k] != Bits8(d)[k])
  {
    hide Bit;
    if k == 0 {
      SumBit(reg, d, 0x80, 0x40);
    } else if k == 1 {
      SumBit(reg, d, 0x40, 0x20);
    } else if k == 2 {
      SumBit(reg, d, 0x20, 0x10);
    } else if k == 3 {
      SumBit(reg, d, 0x10, 0x08);
    } else if k == 4 {
      SumBit(reg, d, 0x08, 0x04);
    } else if k == 5 {
      SumBit(reg, d, 0x04, 0x02);
    } else if k == 6 {
      SumBit(reg, d, 0x02, 0x01);
    } else {
      LowBit(reg, d);
    }
  }

  lemma IndexSum(reg: bv8, d: bv8)
    ensures Bits8((reg << 1) ^ d) == Xor(Bits7(reg) + [false], Bits8(d))
  {
    forall k | 0 <= k < 8
      ensures Bits8((reg << 1) ^ d)[k] == Xor(Bits7(reg) + [false], Bits8(d))[k]
    {
      IndexBitAt(reg, d, k);
    }
    hide Bits7, Bits8, Xor;
  }

  /** One table lookup is eight register steps. */
  lemma LookupIsEightSteps(reg: bv8, d: bv8)
    requires reg < 0x80 && ((reg as bv16) << 1) ^ (d as bv16) < 0x100
    ensures Bits7(Table(((reg as bv16) << 1) ^ (d as bv16))) == Register(Bits7(reg), Bits8(d))
  {
    hide Table, Feed, FeedBits, Register;
    var x := (reg << 1) ^ d;
    IndexInRange(reg, d);
    TableFeeds(((reg as bv16) << 1) ^ (d as bv16));
    EightBits(0, x);
    FeedIsRegister(0, Bits8(x));
    IndexSum(reg, d);
    RegisterLinear(Bits7(reg), Bits8(d));
    assert Bits7(0) == ZERO7;
  }

  lemma {:induction false} RegisterAppend(reg: seq<bool>, a: seq<bool>, b: seq<bool>)
    requires |reg| == 7
    ensures Register(reg, a + b) == Register(Register(reg, a), b)
    decreases |a|
  {
    if a == [] {
      assert [] + b == b;
    } else {
      TailOfSum(a, b);
      RegisterAppend(Shift(reg, a[0]), a[1..], b);
    }
  }

  /** The checksum of a message of any length is the remainder of the message times x^7. */
  method Compute(data: seq<bv8>) returns (result: bv8)
    ensures result < 0x80 && Bits7(result) == LongDivision(MessageBits(data) + ZERO7)
  {
    assert Bits7(0) == ZERO7 && Register(ZERO7, []) == ZERO7;
    hide Bits7, Bits8, Table, Register, LongDivision;
    result := 0;
    for i := 0 to |data|
      invariant result < 0x80 && Bits7(result) == Register(ZERO7, MessageBits(data[..i]))
    {
      IndexInRange(result, data[i]);
      LookupIsEightSteps(result, data[i]);
      assert data[..i + 1][..i] == data[..i];
      RegisterAppend(ZERO7, MessageBits(data[..i]), Bits8(data[i]));
      result := Table(((result as bv16) << 1) ^ (data[i] as bv16));
    }
    assert data[..|data|] == data;
    RegisterDivides(ZERO7, MessageBits(data));
    OverlayZero(MessageBits(data) + ZERO7);
  }
}
