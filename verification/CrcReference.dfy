/**
 The CRC of the MODBUS over Serial Line Specification V1.02, section 6.2.2,
 as its text gives it: a 16-bit register, preset to all ones, shifted right
 one bit at a time and combined with 0xA001 whenever a one falls out.

 Registers are polynomials over two elements, so `Plus` (exclusive or) is
 their addition. The proofs below hide the bit-vector definitions wherever
 algebra is enough.
 */
module CrcReference {
  import opened Bytes

  const POLYNOMIAL: word := 0xA001
  const PRESET: word := 0xFFFF

  function Plus(x: word, y: word): word {
    x ^ y
  }

  function Shift(r: word): word {
    if r & 1 == 1 then Plus(r >> 1, POLYNOMIAL) else r >> 1
  }

  function Shift8(r: word): word {
    Shift(Shift(Shift(Shift(Shift(Shift(Shift(Shift(r))))))))
  }

  /** One byte is combined with the low-order half, then eight shifts follow. */
  function FeedByte(r: word, b: byte): word {
    Shift8(Plus(r, b as word))
  }

  function Feed(r: word, s: seq<byte>): word {
    if s == [] then r else FeedByte(Feed(r, s[..|s| - 1]), s[|s| - 1])
  }

  /** The standard register after a whole message. */
  function Crc(s: seq<byte>): word {
    Feed(PRESET, s)
  }

  function BitWord(b: bool): word {
    if b then 1 else 0
  }

  /** The same register driven by single bits. */
  function FeedBit(r: word, b: bool): word {
    Shift(Plus(r, BitWord(b)))
  }

  function FeedBits(r: word, bits: seq<bool>): word {
    if bits == [] then r
    else FeedBit(FeedBits(r, bits[..|bits| - 1]), bits[|bits| - 1])
  }

  // ----- addition -----

  lemma PlusSelf(x: word, y: word)
    ensures Plus(x, 0) == x
    ensures Plus(x, x) == 0
    ensures Plus(x, y) == 0 <==> x == y
  {
  }

  lemma PlusCommutes(x: word, y: word)
    ensures Plus(x, y) == Plus(y, x)
  {
  }

  lemma PlusAssociates(x: word, y: word, z: word)
    ensures Plus(Plus(x, y), z) == Plus(x, Plus(y, z))
  {
  }

  /** (x + y) + (p + q) == (x + p) + (y + q) */
  lemma PlusExchange(x: word, y: word, p: word, q: word)
    ensures Plus(Plus(x, y), Plus(p, q)) == Plus(Plus(x, p), Plus(y, q))
  {
    hide Plus;
    PlusAssociates(x, y, Plus(p, q));
    PlusAssociates(y, p, q);
    PlusCommutes(y, p);
    PlusAssociates(p, y, q);
    PlusAssociates(x, p, Plus(y, q));
  }

  lemma PlusIsXor(x: word, y: word)
    ensures Plus(x, y) == x ^ y
  {
  }

  lemma XorShifts(x: word, y: word)
    ensures (x ^ y) >> 1 == (x >> 1) ^ (y >> 1)
  {
  }

  lemma PlusShifts(x: word, y: word)
    ensures Plus(x, y) >> 1 == Plus(x >> 1, y >> 1)
  {
    hide Plus;
    PlusIsXor(x, y);
    PlusIsXor(x >> 1, y >> 1);
    XorShifts(x, y);
  }

  lemma PlusLowBit(x: word, y: word)
    ensures Plus(x, y) & 1 == 1 <==> ((x & 1 == 1) != (y & 1 == 1))
  {
  }

  lemma PlusBytes(a: byte, b: byte)
    ensures (a ^ b) as word == Plus(a as word, b as word)
  {
  }

  // ----- shifting -----

  lemma ShiftIsLinear(x: word, y: word)
    ensures Shift(Plus(x, y)) == Plus(Shift(x), Shift(y))
  {
    hide Plus;
    PlusShifts(x, y);
    PlusLowBit(x, y);
    var p, q := x >> 1, y >> 1;
    PlusAssociates(p, q, POLYNOMIAL);
    PlusCommutes(q, POLYNOMIAL);
    PlusAssociates(p, POLYNOMIAL, q);
    PlusExchange(p, POLYNOMIAL, q, POLYNOMIAL);
    PlusSelf(POLYNOMIAL, 0);
    PlusSelf(Plus(p, q), 0);
  }

  lemma ShiftKernel(x: word)
    ensures Shift(x) == 0 <==> x == 0
  {
  }

  lemma Shift8IsLinear(x: word, y: word)
    ensures Shift8(Plus(x, y)) == Plus(Shift8(x), Shift8(y))
  {
    hide Plus, Shift;
    var x1, y1 := Shift(x), Shift(y);
    var x2, y2 := Shift(x1), Shift(y1);
    var x3, y3 := Shift(x2), Shift(y2);
    var x4, y4 := Shift(x3), Shift(y3);
    var x5, y5 := Shift(x4), Shift(y4);
    var x6, y6 := Shift(x5), Shift(y5);
    var x7, y7 := Shift(x6), Shift(y6);
    ShiftIsLinear(x, y);
    ShiftIsLinear(x1, y1);
    ShiftIsLinear(x2, y2);
    ShiftIsLinear(x3, y3);
    ShiftIsLinear(x4, y4);
    ShiftIsLinear(x5, y5);
    ShiftIsLinear(x6, y6);
    ShiftIsLinear(x7, y7);
  }

  /** Eight shifts lose nothing: only the zero register becomes zero. */
  lemma Shift8Kernel(x: word)
    ensures Shift8(x) == 0 <==> x == 0
  {
    hide Shift;
    ShiftKernel(x);
    ShiftKernel(Shift(x));
    ShiftKernel(Shift(Shift(x)));
    ShiftKernel(Shift(Shift(Shift(x))));
    ShiftKernel(Shift(Shift(Shift(Shift(x)))));
    ShiftKernel(Shift(Shift(Shift(Shift(Shift(x))))));
    ShiftKernel(Shift(Shift(Shift(Shift(Shift(Shift(x)))))));
    ShiftKernel(Shift(Shift(Shift(Shift(Shift(Shift(Shift(x))))))));
  }

  /** The high-order half is shifted down untouched. */
  lemma Shift8High(h: word)
    requires h <= 0xFF
    ensures Shift8(h << 8) == h
  {
  }

  lemma JoinIsPlus(hi: byte, lo: byte)
    ensures Join(hi, lo) == Plus((hi as word) << 8, lo as word)
    ensures hi as word <= 0xFF
  {
  }

  /** The byte step that a look-up table replaces. */
  lemma FeedByteSplit(hi: byte, lo: byte, b: byte)
    ensures FeedByte(Join(hi, lo), b) == Plus(hi as word, Shift8((lo ^ b) as word))
  {
    hide Plus, Shift, Shift8, Join;
    var h := (hi as word) << 8;
    JoinIsPlus(hi, lo);
    PlusBytes(lo, b);
    PlusAssociates(h, lo as word, b as word);
    Shift8IsLinear(h, (lo ^ b) as word);
    Shift8High(hi as word);
  }

  // ----- bits and bytes -----

  lemma {:induction false} FeedBitsAppend(r: word, a: seq<bool>, b: seq<bool>)
    ensures FeedBits(r, a + b) == FeedBits(FeedBits(r, a), b)
  {
    hide FeedBit;
    if b == [] {
      assert a + b == a;
    } else {
      var n := |b| - 1;
      assert (a + b)[..|a| + n] == a + b[..n];
      FeedBitsAppend(r, a, b[..n]);
    }
  }

  lemma BitTests(b: byte)
    ensures (b & 0x01 != 0) == (b as word & 1 == 1)
    ensures (b & 0x02 != 0) == ((b as word >> 1) & 1 == 1)
    ensures (b & 0x04 != 0) == ((b as word >> 2) & 1 == 1)
    ensures (b & 0x08 != 0) == ((b as word >> 3) & 1 == 1)
    ensures (b & 0x10 != 0) == ((b as word >> 4) & 1 == 1)
    ensures (b & 0x20 != 0) == ((b as word >> 5) & 1 == 1)
    ensures (b & 0x40 != 0) == ((b as word >> 6) & 1 == 1)
    ensures (b & 0x80 != 0) == ((b as word >> 7) & 1 == 1)
    ensures b as word >> 8 == 0
  {
  }

  lemma ShiftFirstBit(w: word)
    ensures Shift(w) == Plus(Shift(BitWord(w & 1 == 1)), w >> 1)
  {
  }

  /** Bits still to come only ride along one place to the right. */
  lemma PeelBit(r: word, w: word)
    ensures Shift(Plus(r, w)) == Plus(FeedBit(r, w & 1 == 1), w >> 1)
  {
    hide Plus, Shift, BitWord;
    var b := BitWord(w & 1 == 1);
    ShiftIsLinear(r, w);
    ShiftIsLinear(r, b);
    ShiftFirstBit(w);
    PlusAssociates(Shift(r), Shift(b), w >> 1);
  }

  lemma FeedBitsNext(r: word, q: seq<bool>, k: nat)
    requires k < |q|
    ensures FeedBits(r, q[..k + 1]) == FeedBit(FeedBits(r, q[..k]), q[k])
  {
    hide FeedBit;
    assert q[..k + 1][..k] == q[..k];
  }

  lemma FeedNoBits(r: word, q: seq<bool>)
    ensures FeedBits(r, q[..0]) == r
  {
  }

  lemma FeedBitsEight(r: word, q: seq<bool>)
    requires |q| == 8
    ensures FeedBits(r, q) ==
            FeedBit(FeedBit(FeedBit(FeedBit(FeedBit(FeedBit(FeedBit(FeedBit(
              r, q[0]), q[1]), q[2]), q[3]), q[4]), q[5]), q[6]), q[7])
  {
    hide *;
    FeedNoBits(r, q);
    FeedBitsNext(r, q, 0);
    FeedBitsNext(r, q, 1);
    FeedBitsNext(r, q, 2);
    FeedBitsNext(r, q, 3);
    FeedBitsNext(r, q, 4);
    FeedBitsNext(r, q, 5);
    FeedBitsNext(r, q, 6);
    FeedBitsNext(r, q, 7);
    assert q[..8] == q;
  }

  /** Feeding a byte is feeding its bits, least significant first. */
  lemma FeedByteBits(r: word, b: byte)
    ensures FeedBits(r, ByteBits(b)) == FeedByte(r, b)
  {
    hide Plus, Shift, FeedBit;
    var q, w := ByteBits(b), b as word;
    FeedBitsEight(r, q);
    BitTests(b);
    EightPeels(r, w);
  }

  lemma EightPeels(r: word, w: word)
    requires w >> 8 == 0
    ensures Shift8(Plus(r, w)) ==
            FeedBit(FeedBit(FeedBit(FeedBit(FeedBit(FeedBit(FeedBit(FeedBit(
              r, w & 1 == 1), (w >> 1) & 1 == 1), (w >> 2) & 1 == 1), (w >> 3) & 1 == 1),
              (w >> 4) & 1 == 1), (w >> 5) & 1 == 1), (w >> 6) & 1 == 1), (w >> 7) & 1 == 1)
  {
    hide Plus, Shift, FeedBit;
    ShiftsAdd(w);
    var r1 := FeedBit(r, w & 1 == 1);
    var r2 := FeedBit(r1, (w >> 1) & 1 == 1);
    var r3 := FeedBit(r2, (w >> 2) & 1 == 1);
    var r4 := FeedBit(r3, (w >> 3) & 1 == 1);
    var r5 := FeedBit(r4, (w >> 4) & 1 == 1);
    var r6 := FeedBit(r5, (w >> 5) & 1 == 1);
    var r7 := FeedBit(r6, (w >> 6) & 1 == 1);
    var r8 := FeedBit(r7, (w >> 7) & 1 == 1);
    PeelBit(r, w);
    PeelBit(r1, w >> 1);
    PeelBit(r2, w >> 2);
    PeelBit(r3, w >> 3);
    PeelBit(r4, w >> 4);
    PeelBit(r5, w >> 5);
    PeelBit(r6, w >> 6);
    PeelBit(r7, w >> 7);
    PlusSelf(r8, 0);
  }

  lemma ShiftsAdd(w: word)
    ensures (w >> 1) >> 1 == w >> 2 && (w >> 2) >> 1 == w >> 3 && (w >> 3) >> 1 == w >> 4
    ensures (w >> 4) >> 1 == w >> 5 && (w >> 5) >> 1 == w >> 6 && (w >> 6) >> 1 == w >> 7
    ensures (w >> 7) >> 1 == w >> 8
  {
  }

  /** The byte-wise register and the bit-wise register agree on every message. */
  lemma {:induction false} FeedIsFeedBits(r: word, s: seq<byte>)
    ensures Feed(r, s) == FeedBits(r, Bits(s))
  {
    hide FeedByte, FeedBit, ByteBits;
    if s == [] {
    } else {
      var n := |s| - 1;
      FeedIsFeedBits(r, s[..n]);
      FeedBitsAppend(r, Bits(s[..n]), ByteBits(s[n]));
      FeedByteBits(Feed(r, s[..n]), s[n]);
    }
  }

  lemma {:induction false} FeedAppend(r: word, a: seq<byte>, b: seq<byte>)
    ensures Feed(r, a + b) == Feed(Feed(r, a), b)
  {
    hide FeedByte;
    if b == [] {
      assert a + b == a;
    } else {
      var n := |b| - 1;
      assert (a + b)[..|a| + n] == a + b[..n];
      FeedAppend(r, a, b[..n]);
    }
  }

  lemma FeedByteIsLinear(x: word, y: word, a: byte, b: byte)
    ensures FeedByte(Plus(x, y), a ^ b) == Plus(FeedByte(x, a), FeedByte(y, b))
  {
    hide Plus, Shift8;
    PlusBytes(a, b);
    PlusExchange(x, y, a as word, b as word);
    Shift8IsLinear(Plus(x, a as word), Plus(y, b as word));
  }

  /** The register is linear in its start value and in the message. */
  lemma {:induction false} FeedIsLinear(r1: word, r2: word, a: seq<byte>, b: seq<byte>)
    requires |a| == |b|
    ensures Feed(Plus(r1, r2), Xor(a, b)) == Plus(Feed(r1, a), Feed(r2, b))
  {
    hide Plus, FeedByte;
    if a == [] {
      assert Xor(a, b) == [];
    } else {
      var n := |a| - 1;
      var x, y := Feed(r1, a[..n]), Feed(r2, b[..n]);
      assert Xor(a, b)[..n] == Xor(a[..n], b[..n]);
      FeedIsLinear(r1, r2, a[..n], b[..n]);
      FeedByteIsLinear(x, y, a[n], b[n]);
    }
  }

  // ----- a register worked out -----

  lemma WorkedBytes()
    ensures FeedByte(0xFFFF, 0x11) == 0x4C7F && FeedByte(0x4C7F, 0x03) == 0xE14D
    ensures FeedByte(0xE14D, 0x00) == 0x3521 && FeedByte(0x3521, 0x6B) == 0xF7B4
    ensures FeedByte(0xF7B4, 0x00) == 0x77F7 && FeedByte(0x77F7, 0x03) == 0x8776
  {
  }

  /** Reading three holding registers from 0x6B of slave 0x11: the register ends at 0x8776. */
  lemma WorkedCrc()
    ensures Crc([0x11, 0x03, 0x00, 0x6B, 0x00, 0x03]) == 0x8776
  {
    hide FeedByte;
    WorkedBytes();
    var s: seq<byte> := [0x11, 0x03, 0x00, 0x6B, 0x00, 0x03];
    assert s[..0] == [] && s[..1][..0] == [] && s[..2][..1] == s[..1] && s[..3][..2] == s[..2];
    assert s[..4][..3] == s[..3] && s[..5][..4] == s[..4] && s[..6] == s;
    assert Feed(PRESET, s[..1]) == 0x4C7F;
    assert Feed(PRESET, s[..2]) == 0xE14D;
    assert Feed(PRESET, s[..3]) == 0x3521;
    assert Feed(PRESET, s[..4]) == 0xF7B4;
    assert Feed(PRESET, s[..5]) == 0x77F7;
  }
}
