/**
 What the frame check of MODBUS RTU (section 2.5.1.2 of the MODBUS over
 Serial Line Specification V1.02) detects. A frame is accepted when the
 `crc16` of all but its last two bytes equals the word those two bytes form.
 */
module CrcDetection {
  import opened Bytes
  import opened CrcReference
  import opened CrcTables

  predicate Accepted(frame: seq<byte>) {
    |frame| >= 2 &&
    Crc16Of(frame[..|frame| - 2]) == Join(frame[|frame| - 2], frame[|frame| - 1])
  }

  // ----- residue -----

  lemma SwappedJoin(r: word, a: byte, b: byte)
    ensures Swapped(r) == Join(a, b) <==> r == Join(b, a)
  {
    hide Join, High, Low;
    JoinParts(r, Low(r), High(r));
    JoinParts(r, a, b);
    JoinParts(r, b, a);
  }

  /** Two more bytes empty the register exactly when they spell it, low half first. */
  lemma ResidueOfTwo(r: word, a: byte, b: byte)
    ensures FeedByte(FeedByte(r, a), b) == 0 <==> r == Join(b, a)
  {
    hide Plus, Shift8, Join;
    var h, x := (b as word) << 8, Plus(r, a as word);
    JoinIsPlus(b, a);
    Shift8High(b as word);
    Shift8Kernel(Plus(Shift8(x), b as word));
    PlusSelf(Shift8(x), b as word);
    // Shift8(x) == Shift8(h) <==> x == h
    Shift8IsLinear(x, h);
    Shift8Kernel(Plus(x, h));
    PlusSelf(x, h);
    PlusSelf(Shift8(x), Shift8(h));
    PlusMoves(r, a as word, h);
  }

  lemma PlusMoves(x: word, y: word, z: word)
    ensures Plus(x, y) == z <==> x == Plus(z, y)
  {
    hide Plus;
    PlusAssociates(x, y, y);
    PlusAssociates(z, y, y);
    PlusSelf(y, 0);
    PlusSelf(x, 0);
    PlusSelf(z, 0);
  }

  /** A frame is accepted exactly when its CRC, taken over all of it, is zero. */
  lemma AcceptedIffResidueZero(frame: seq<byte>)
    requires |frame| >= 2
    ensures Accepted(frame) <==> Crc(frame) == 0
  {
    hide FeedByte, Swapped, Join;
    var n := |frame|;
    var r, a, b := Crc(frame[..n - 2]), frame[n - 2], frame[n - 1];
    assert frame[..n - 1][..n - 2] == frame[..n - 2];
    assert Crc(frame[..n - 1]) == FeedByte(r, a);
    assert Crc(frame) == FeedByte(FeedByte(r, a), b);
    SwappedJoin(r, a, b);
    ResidueOfTwo(r, a, b);
  }

  /** Section 2.5.1.2: appending the CRC, low-order half first, makes an accepted frame. */
  lemma AppendedCrcIsAccepted(s: seq<byte>)
    ensures var c := Crc16Of(s);
            var frame := s + [High(c), Low(c)];
            Accepted(frame) && Crc(frame) == 0
  {
    var c := Crc16Of(s);
    var frame := s + [High(c), Low(c)];
    hide Crc16Of, High, Low, Join, FeedByte;
    assert frame[..|frame| - 2] == s;
    JoinParts(c, 0, 0);
    AcceptedIffResidueZero(frame);
  }

  // ----- linearity -----

  /** crc(a ^ b ^ c) == crc(a) ^ crc(b) ^ crc(c) for messages of one length. */
  lemma CrcOfThree(a: seq<byte>, b: seq<byte>, c: seq<byte>)
    requires |a| == |b| == |c|
    ensures Crc16Of(Xor(Xor(a, b), c)) == Crc16Of(a) ^ Crc16Of(b) ^ Crc16Of(c)
  {
    hide Plus, FeedByte, Feed, Swapped;
    FeedIsLinear(PRESET, PRESET, a, b);
    FeedIsLinear(Plus(PRESET, PRESET), PRESET, Xor(a, b), c);
    PlusAssociates(PRESET, PRESET, PRESET);
    PlusSelf(PRESET, 0);
    SwappedPlus(Crc(a), Crc(b));
    SwappedPlus(Plus(Crc(a), Crc(b)), Crc(c));
  }

  lemma SwappedPlus(x: word, y: word)
    ensures Swapped(Plus(x, y)) == Swapped(x) ^ Swapped(y)
  {
  }

  // ----- errors in general -----

  /** Damage goes unnoticed exactly when it alone leaves a cleared register empty. */
  lemma UndetectedIff(frame: seq<byte>, error: seq<byte>)
    requires Accepted(frame) && |error| == |frame|
    ensures Accepted(Xor(frame, error)) <==> FeedBits(0, Bits(error)) == 0
  {
    hide Plus, FeedByte, Feed, FeedBits, Bits, Accepted;
    assert |frame| >= 2 by { AcceptedIsLong(frame); }
    AcceptedIffResidueZero(frame);
    AcceptedIffResidueZero(Xor(frame, error));
    FeedIsLinear(PRESET, 0, frame, error);
    PlusSelf(PRESET, 0);
    PlusCommutes(0, Feed(0, error));
    PlusSelf(Feed(0, error), 0);
    FeedIsFeedBits(0, error);
  }

  lemma AcceptedIsLong(frame: seq<byte>)
    requires Accepted(frame)
    ensures |frame| >= 2
  {
  }

  // ----- parity -----

  /** Whether a register holds an odd number of ones. */
  predicate Odd(r: word) {
    r != 0 && ((r & 1 == 1) != Odd(r >> 1))
  }

  lemma OddStep(r: word)
    ensures Odd(r) == ((r & 1 == 1) != Odd(r >> 1))
  {
  }

  lemma ShiftDrops(x: word)
    requires x != 0
    ensures x >> 1 < x
  {
  }

  lemma {:induction false} OddOfPlus(x: word, y: word)
    ensures Odd(Plus(x, y)) == (Odd(x) != Odd(y))
    decreases x
  {
    hide Plus;
    if x == 0 {
      PlusCommutes(x, y);
      PlusSelf(y, 0);
    } else {
      PlusShifts(x, y);
      PlusLowBit(x, y);
      ShiftDrops(x);
      OddOfPlus(x >> 1, y >> 1);
      OddStep(Plus(x, y));
      OddStep(x);
      OddStep(y);
    }
  }

  lemma OddConstants()
    ensures Odd(POLYNOMIAL) && !Odd(PRESET) && Odd(1) && !Odd(0)
  {
    assert Odd(0x5) == false && Odd(0x3) == false && Odd(0xF) == false;
    assert Odd(0xA) == false && Odd(0x14) == false && Odd(0x28) == false && Odd(0x50) == false;
    assert Odd(0xA0) == false && Odd(0x140) == false && Odd(0x280) == false && Odd(0x500) == false;
    assert Odd(0xA00) == false && Odd(0x1400) == false && Odd(0x2800) == false && Odd(0x5000) == false;
    assert Odd(0x3F) == false && Odd(0xFF) == false && Odd(0x3FF) == false;
    assert Odd(0xFFF) == false && Odd(0x3FFF) == false;
  }

  /** 0xA001 has three ones: together with the one shifted out, parity is kept. */
  lemma OddOfShift(x: word)
    ensures Odd(Shift(x)) == Odd(x)
  {
    hide Plus;
    OddStep(x);
    OddOfPlus(x >> 1, POLYNOMIAL);
    OddConstants();
  }

  lemma {:induction false} OddOfFeedBits(r: word, bits: seq<bool>)
    ensures Odd(FeedBits(r, bits)) == (Odd(r) != (Ones(bits) % 2 == 1))
  {
    hide Plus, Shift, Odd;
    if bits == [] {
    } else {
      var n := |bits| - 1;
      var s, b := FeedBits(r, bits[..n]), bits[n];
      OddOfFeedBits(r, bits[..n]);
      OddOfShift(Plus(s, BitWord(b)));
      OddOfPlus(s, BitWord(b));
      OddConstants();
    }
  }

  /** Every accepted frame carries an even number of one bits. */
  lemma AcceptedFramesAreEven(frame: seq<byte>)
    requires Accepted(frame)
    ensures Ones(Bits(frame)) % 2 == 0
  {
    hide Odd, FeedBits, Feed, Bits, Ones;
    AcceptedIffResidueZero(frame);
    FeedIsFeedBits(PRESET, frame);
    OddOfFeedBits(PRESET, Bits(frame));
    OddConstants();
  }

  /** Any odd number of flipped bits is detected, at every length. */
  lemma OddErrorsDetected(frame: seq<byte>, error: seq<byte>)
    requires Accepted(frame) && |error| == |frame|
    requires Ones(Bits(error)) % 2 == 1
    ensures !Accepted(Xor(frame, error))
  {
    hide Odd, FeedBits, Bits, Ones, Accepted;
    UndetectedIff(frame, error);
    OddOfFeedBits(0, Bits(error));
    OddConstants();
  }

  // ----- bursts -----

  lemma {:induction false} ZerosKeepZero(n: nat)
    ensures FeedBits(0, Zeros(n)) == 0
  {
    if n == 0 {
    } else {
      assert Zeros(n)[..n - 1] == Zeros(n - 1);
      ZerosKeepZero(n - 1);
    }
  }

  /** Correct bits after the damage cannot hide it. */
  lemma {:induction false} ZerosKeepNonzero(r: word, n: nat)
    ensures FeedBits(r, Zeros(n)) == 0 <==> r == 0
  {
    hide Plus, Shift;
    if n == 0 {
    } else {
      var s := FeedBits(r, Zeros(n - 1));
      assert Zeros(n)[..n - 1] == Zeros(n - 1);
      ZerosKeepNonzero(r, n - 1);
      PlusSelf(s, 0);
      ShiftKernel(s);
    }
  }

  predicate Under(r: word, m: word) {
    r < m
  }

  /** `m` can be doubled `n` times without passing 0x8000. */
  predicate Room(m: word, n: nat)
    decreases n
  {
    if n == 0 then m <= 0x8000 else m <= 0x4000 && Room(m << 1, n - 1)
  }

  lemma RoomForFifteen()
    ensures Room(1, 15)
  {
    assert Room(0x4000, 1) && Room(0x2000, 2) && Room(0x1000, 3);
    assert Room(0x800, 4) && Room(0x400, 5) && Room(0x200, 6) && Room(0x100, 7);
    assert Room(0x80, 8) && Room(0x40, 9) && Room(0x20, 10) && Room(0x10, 11);
    assert Room(8, 12) && Room(4, 13) && Room(2, 14);
  }

  /** A small register came from one at most twice as large. */
  lemma FeedBitBackwards(r: word, b: bool, m: word)
    requires m <= 0x4000 && Under(FeedBit(r, b), m)
    ensures Under(r, m << 1)
  {
  }

  lemma UnderAll(r: word, m: word)
    requires Under(r, m) && m <= 0x8000
    ensures Under(r, 0x8000)
  {
  }

  lemma {:induction false} FeedBitsBackwards(r: word, bits: seq<bool>, m: word)
    requires Room(m, |bits|) && Under(FeedBits(r, bits), m)
    ensures Under(r, 0x8000)
    decreases |bits|
  {
    hide FeedBit, Under;
    if bits == [] {
      UnderAll(r, m);
    } else {
      var n := |bits| - 1;
      FeedBitBackwards(FeedBits(r, bits[..n]), bits[n], m);
      FeedBitsBackwards(r, bits[..n], m << 1);
    }
  }

  lemma FirstBitFills()
    ensures FeedBit(0, true) == POLYNOMIAL
    ensures POLYNOMIAL >= 0x8000
  {
  }

  /** One wrong bit followed by any fifteen more cannot leave the register empty. */
  lemma BurstLeavesTrace(rest: seq<bool>)
    requires |rest| == 15
    ensures FeedBits(FeedBit(0, true), rest) != 0
  {
    hide FeedBit, FeedBits, Room;
    FirstBitFills();
    RoomForFifteen();
    if FeedBits(FeedBit(0, true), rest) == 0 {
      FeedBitsBackwards(FeedBit(0, true), rest, 1);
    }
  }

  lemma FirstSet(bits: seq<bool>, k: nat) returns (f: nat)
    requires k < |bits| && bits[k]
    ensures f <= k && bits[f]
    ensures forall i :: 0 <= i < f ==> !bits[i]
  {
    f := 0;
    while !bits[f]
      invariant f <= k
      invariant forall i :: 0 <= i < f ==> !bits[i]
      decreases k - f
    {
      f := f + 1;
    }
  }

  lemma BurstBits(bits: seq<bool>, k: nat)
    requires k < |bits| && bits[k]
    requires forall i, j :: 0 <= i < j < |bits| && bits[i] && bits[j] ==> j - i < 16
    ensures FeedBits(0, bits) != 0
  {
    hide FeedBits, FeedBit;
    var f := FirstSet(bits, k);
    // pad on the right so that the fifteen bits after the first are all there
    var long := bits + Zeros(15);
    var rest := long[f + 1..f + 16];
    var tail := |long| - (f + 16);
    assert forall i :: f + 16 <= i < |long| ==> !long[i];
    assert long == Zeros(f) + ([true] + (rest + Zeros(tail)));
    FeedBitsAppend(0, Zeros(f), [true] + (rest + Zeros(tail)));
    ZerosKeepZero(f);
    FeedBitsAppend(0, [true], rest + Zeros(tail));
    OneBit(0, true);
    FeedBitsAppend(FeedBit(0, true), rest, Zeros(tail));
    BurstLeavesTrace(rest);
    ZerosKeepNonzero(FeedBits(FeedBit(0, true), rest), tail);
    FeedBitsAppend(0, bits, Zeros(15));
    ZerosKeepNonzero(FeedBits(0, bits), 15);
  }

  lemma OneBit(r: word, b: bool)
    ensures FeedBits(r, [b]) == FeedBit(r, b)
  {
    hide FeedBit;
    assert [b][..0] == [];
  }

  /**
   Burst detection: every nonzero error whose flipped bits lie within sixteen
   consecutive places, anywhere in the frame including its CRC, is detected.
   */
  lemma BurstsDetected(frame: seq<byte>, error: seq<byte>, k: nat)
    requires Accepted(frame) && |error| == |frame|
    requires k < |Bits(error)| && Bits(error)[k]
    requires forall i, j :: 0 <= i < j < |Bits(error)| && Bits(error)[i] && Bits(error)[j] ==> j - i < 16
    ensures !Accepted(Xor(frame, error))
  {
    hide FeedBits, Bits, Accepted;
    UndetectedIff(frame, error);
    BurstBits(Bits(error), k);
  }

  /** Sixteen is the limit: some seventeen-bit burst is accepted in every long enough frame. */
  lemma SeventeenBitBurstPasses(frame: seq<byte>)
    requires Accepted(frame) && |frame| >= 3
    ensures var error := [0x03, 0x40, 0x01] + seq(|frame| - 3, _ => 0 as byte);
            Accepted(Xor(frame, error)) && Xor(frame, error) != frame
  {
    var z := seq(|frame| - 3, _ => 0 as byte);
    var error := [0x03, 0x40, 0x01] + z;
    GeneratorVanishes();
    FeedAppend(0, [0x03, 0x40, 0x01], z);
    ZeroBytesKeepZero(|frame| - 3);
    FeedIsFeedBits(0, error);
    UndetectedIff(frame, error);
    assert Xor(frame, error)[0] == frame[0] ^ 0x03;
    assert Xor(frame, error)[0] != frame[0];
  }

  lemma GeneratorVanishes()
    ensures Feed(0, [0x03, 0x40, 0x01]) == 0
  {
    var e: seq<byte> := [0x03, 0x40, 0x01];
    assert e[..2][..1] == e[..1] && e[..1][..0] == [];
    assert Feed(0, e[..1]) == FeedByte(0, 0x03);
    assert Feed(0, e[..2]) == FeedByte(FeedByte(0, 0x03), 0x40);
    assert Feed(0, e) == FeedByte(FeedByte(FeedByte(0, 0x03), 0x40), 0x01);
  }

  lemma {:induction false} ZeroBytesKeepZero(n: nat)
    ensures Feed(0, seq(n, _ => 0 as byte)) == 0
  {
    if n == 0 {
    } else {
      assert seq(n, _ => 0 as byte)[..n - 1] == seq(n - 1, _ => 0 as byte);
      ZeroBytesKeepZero(n - 1);
    }
  }
}
