/**
 The frame check has Hamming distance four: every error of one, two or three
 bits is detected in every frame that fits an RTU buffer (256 bytes). One and
 three are odd; two bits cancel only if a register, shifted on its own, comes
 back to 1 within the frame, and 2048 shifts rule that out.
 */
module CrcDistance {
  import opened Bytes
  import opened CrcReference
  import opened CrcDetection

  // ----- 2048 shifts -----

  /** `Shift`, written for computing with. */
  function Next(r: word): word {
    if r & 1 == 1 then (r >> 1) ^ 0xA001 else r >> 1
  }

  lemma NextIsShift(r: word)
    ensures Next(r) == Shift(r)
  {
  }

  /** None of `r` and its next 8 * n - 1 shifts is 1. */
  predicate Clear(r: word, n: nat)
    decreases n
  {
    n == 0 ||
    var r1 := Next(r);
    var r2 := Next(r1);
    var r3 := Next(r2);
    var r4 := Next(r3);
    var r5 := Next(r4);
    var r6 := Next(r5);
    var r7 := Next(r6);
    && r != 1 && r1 != 1 && r2 != 1 && r3 != 1 && r4 != 1 && r5 != 1 && r6 != 1 && r7 != 1
    && Clear(Next(r7), n - 1)
  }

  lemma Walk0(n: nat)
    requires Clear(0xE861, n)
    ensures Clear(0xA001, n + 16)
  {
    assert Clear(0xA061, n + 1) && Clear(0x6080, n + 2) && Clear(0x4081, n + 3) && Clear(0xC1FF, n + 4);
    assert Clear(0x7E02, n + 5) && Clear(0xC2A9, n + 6) && Clear(0xE807, n + 7) && Clear(0xC661, n + 8);
    assert Clear(0x6008, n + 9) && Clear(0xC881, n + 10) && Clear(0xC01F, n + 11) && Clear(0xDE01, n + 12);
    assert Clear(0xC029, n + 13) && Clear(0xE801, n + 14) && Clear(0xC061, n + 15) && Clear(0xA001, n + 16);
  }

  lemma Walk1(n: nat)
    requires Clear(0xF601, n)
    ensures Clear(0xE861, n + 16)
  {
    assert Clear(0xC049, n + 1) && Clear(0x8801, n + 2) && Clear(0x00E0, n + 3) && Clear(0xE000, n + 4);
    assert Clear(0x417F, n + 5) && Clear(0x7FFC, n + 6) && Clear(0x7CAA, n + 7) && Clear(0xEAAF, n + 8);
    assert Clear(0xEE67, n + 9) && Clear(0x6668, n + 10) && Clear(0x6888, n + 11) && Clear(0xC89F, n + 12);
    assert Clear(0xDE1F, n + 13) && Clear(0xDE29, n + 14) && Clear(0xE829, n + 15) && Clear(0xE861, n + 16);
  }

  lemma Walk2(n: nat)
    requires Clear(0xD6B7, n)
    ensures Clear(0xF601, n + 16)
  {
    assert Clear(0xF637, n + 1) && Clear(0xF649, n + 2) && Clear(0x8849, n + 3) && Clear(0x48E0, n + 4);
    assert Clear(0x20E1, n + 5) && Clear(0x617E, n + 6) && Clear(0xFE82, n + 7) && Clear(0xC357, n + 8);
    assert Clear(0x5604, n + 9) && Clear(0xC4C9, n + 10) && Clear(0x480E, n + 11) && Clear(0xCEE1, n + 12);
    assert Clear(0x6016, n + 13) && Clear(0xD681, n + 14) && Clear(0xC037, n + 15) && Clear(0xF601, n + 16);
  }

  lemma Walk3(n: nat)
    requires Clear(0xD861, n)
    ensures Clear(0xD6B7, n + 16)
  {
    assert Clear(0x6020, n + 1) && Clear(0xE081, n + 2) && Clear(0xC07F, n + 3) && Clear(0xBE01, n + 4);
    assert Clear(0x00A8, n + 5) && Clear(0xA800, n + 6) && Clear(0x819E, n + 7) && Clear(0x5FFD, n + 8);
    assert Clear(0xFDD4, n + 9) && Clear(0x5552, n + 10) && Clear(0x52CC, n + 11) && Clear(0x4CC6, n + 12);
    assert Clear(0x46EE, n + 13) && Clear(0x6EF6, n + 14) && Clear(0x7696, n + 15) && Clear(0xD6B7, n + 16);
  }

  lemma Walk4(n: nat)
    requires Clear(0xE231, n)
    ensures Clear(0xD861, n + 16)
  {
    assert Clear(0xF079, n + 1) && Clear(0x7840, n + 2) && Clear(0x40A0, n + 3) && Clear(0xE0FF, n + 4);
    assert Clear(0xBE7F, n + 5) && Clear(0x7EA8, n + 6) && Clear(0x68A9, n + 7) && Clear(0xE99F, n + 8);
    assert Clear(0x1E62, n + 9) && Clear(0x6228, n + 10) && Clear(0x6887, n + 11) && Clear(0xC79F, n + 12);
    assert Clear(0xDE0B, n + 13) && Clear(0xCA29, n + 14) && Clear(0xE819, n + 15) && Clear(0xD861, n + 16);
  }

  lemma Walk5(n: nat)
    requires Clear(0xCDB7, n)
    ensures Clear(0xE231, n + 16)
  {
    assert Clear(0xF613, n + 1) && Clear(0xD249, n + 2) && Clear(0x4838, n + 3) && Clear(0xF8E1, n + 4);
    assert Clear(0x605E, n + 5) && Clear(0x9E81, n + 6) && Clear(0x00D6, n + 7) && Clear(0xD600, n + 8);
    assert Clear(0x4137, n + 9) && Clear(0x37FC, n + 10) && Clear(0xBC4B, n + 11) && Clear(0xCAAE, n + 12);
    assert Clear(0x6F19, n + 13) && Clear(0xD995, n + 14) && Clear(0xD423, n + 15) && Clear(0xE231, n + 16);
  }

  lemma Walk6(n: nat)
    requires Clear(0xD33A, n)
    ensures Clear(0xCDB7, n + 16)
  {
    assert Clear(0x7B3B, n + 1) && Clear(0xFBA5, n + 2) && Clear(0xE45B, n + 3) && Clear(0x5A70, n + 4);
    assert Clear(0x70D8, n + 5) && Clear(0x58BE, n + 6) && Clear(0x3EDE, n + 7) && Clear(0x5E56, n + 8);
    assert Clear(0x16D7, n + 9) && Clear(0x5736, n + 10) && Clear(0xB6CA, n + 11) && Clear(0x4BB6, n + 12);
    assert Clear(0xB6E4, n + 13) && Clear(0x65B6, n + 14) && Clear(0x768D, n + 15) && Clear(0xCDB7, n + 16);
  }

  lemma Walk7(n: nat)
    requires Clear(0xEE01, n)
    ensures Clear(0xD33A, n + 16)
  {
    assert Clear(0x0068, n + 1) && Clear(0x6800, n + 2) && Clear(0x409F, n + 3) && Clear(0xDFFF, n + 4);
    assert Clear(0x7E2A, n + 5) && Clear(0xEAA9, n + 6) && Clear(0xE867, n + 7) && Clear(0xA661, n + 8);
    assert Clear(0xA089, n + 9) && Clear(0x8880, n + 10) && Clear(0x81E0, n + 11) && Clear(0x21FD, n + 12);
    assert Clear(0x3D7D, n + 13) && Clear(0x3D53, n + 14) && Clear(0x1353, n + 15) && Clear(0xD33A, n + 16);
  }

  lemma Walk8(n: nat)
    requires Clear(0xDCAF, n)
    ensures Clear(0xEE01, n + 16)
  {
    assert Clear(0xEE2F, n + 1) && Clear(0x2E68, n + 2) && Clear(0xA869, n + 3) && Clear(0xE89E, n + 4);
    assert Clear(0x5F61, n + 5) && Clear(0x61D4, n + 6) && Clear(0x5482, n + 7) && Clear(0xC2CF, n + 8);
    assert Clear(0x8E07, n + 9) && Clear(0xC6E9, n + 10) && Clear(0xE808, n + 11) && Clear(0xC961, n + 12);
    assert Clear(0x601C, n + 13) && Clear(0xDC81, n + 14) && Clear(0xC02F, n + 15) && Clear(0xEE01, n + 16);
  }

  lemma Walk9(n: nat)
    requires Clear(0xD5E1, n)
    ensures Clear(0xDCAF, n + 16)
  {
    assert Clear(0x6032, n + 1) && Clear(0xF281, n + 2) && Clear(0x0046, n + 3) && Clear(0x4600, n + 4);
    assert Clear(0x80F6, n + 5) && Clear(0x77FE, n + 6) && Clear(0xFEB4, n + 7) && Clear(0xF557, n + 8);
    assert Clear(0x564C, n + 9) && Clear(0x8CC9, n + 10) && Clear(0x88EF, n + 11) && Clear(0xEEE0, n + 12);
    assert Clear(0xE168, n + 13) && Clear(0x697C, n + 14) && Clear(0x7C9C, n + 15) && Clear(0xDCAF, n + 16);
  }

  lemma Walk10(n: nat)
    requires Clear(0x479D, n)
    ensures Clear(0xD5E1, n + 16)
  {
    assert Clear(0x5DF5, n + 1) && Clear(0x75D2, n + 2) && Clear(0x52B2, n + 3) && Clear(0x32C6, n + 4);
    assert Clear(0x8647, n + 5) && Clear(0x06F7, n + 6) && Clear(0x3709, n + 7) && Clear(0x494B, n + 8);
    assert Clear(0xCBE2, n + 9) && Clear(0x631A, n + 10) && Clear(0x1A84, n + 11) && Clear(0xC427, n + 12);
    assert Clear(0xA60E, n + 13) && Clear(0xCF89, n + 14) && Clear(0x4815, n + 15) && Clear(0xD5E1, n + 16);
  }

  lemma Walk11(n: nat)
    requires Clear(0xCBAF, n)
    ensures Clear(0x479D, n + 16)
  {
    assert Clear(0x2E1A, n + 1) && Clear(0xDA69, n + 2) && Clear(0xE826, n + 3) && Clear(0xE761, n + 4);
    assert Clear(0xA075, n + 5) && Clear(0x7480, n + 6) && Clear(0x40B1, n + 7) && Clear(0xF1FF, n + 8);
    assert Clear(0xBE43, n + 9) && Clear(0x42A8, n + 10) && Clear(0x68F9, n + 11) && Clear(0xB99F, n + 12);
    assert Clear(0x1EA2, n + 13) && Clear(0xA228, n + 14) && Clear(0xA986, n + 15) && Clear(0x479D, n + 16);
  }

  lemma Walk12(n: nat)
    requires Clear(0xDBB6, n)
    ensures Clear(0xCBAF, n + 16)
  {
    assert Clear(0x7725, n + 1) && Clear(0x25B4, n + 2) && Clear(0x3472, n + 3) && Clear(0xF24E, n + 4);
    assert Clear(0xCF46, n + 5) && Clear(0x8715, n + 6) && Clear(0x14F4, n + 7) && Clear(0xF430, n + 8);
    assert Clear(0x714F, n + 9) && Clear(0x8FBD, n + 10) && Clear(0x3CEA, n + 11) && Clear(0xEA50, n + 12);
    assert Clear(0x1167, n + 13) && Clear(0x673C, n + 14) && Clear(0x7C8B, n + 15) && Clear(0xCBAF, n + 16);
  }

  lemma Walk13(n: nat)
    requires Clear(0x4D6D, n)
    ensures Clear(0xDBB6, n + 16)
  {
    assert Clear(0xADED, n + 1) && Clear(0x6C92, n + 2) && Clear(0x9290, n + 3) && Clear(0xD1C7, n + 4);
    assert Clear(0x063D, n + 5) && Clear(0xFD09, n + 6) && Clear(0x8852, n + 7) && Clear(0x53E0, n + 8);
    assert Clear(0x20C5, n + 9) && Clear(0x457E, n + 10) && Clear(0x3EF3, n + 11) && Clear(0x7356, n + 12);
    assert Clear(0x16BB, n + 13) && Clear(0x3B36, n + 14) && Clear(0xB65A, n + 15) && Clear(0xDBB6, n + 16);
  }

  lemma Walk14(n: nat)
    requires Clear(0x8861, n)
    ensures Clear(0x4D6D, n + 16)
  {
    assert Clear(0x60E0, n + 1) && Clear(0x2081, n + 2) && Clear(0x017E, n + 3) && Clear(0x3E03, n + 4);
    assert Clear(0x8356, n + 5) && Clear(0x17FB, n + 6) && Clear(0x3B35, n + 7) && Clear(0xB55A, n + 8);
    assert Clear(0x1BB3, n + 9) && Clear(0xB324, n + 10) && Clear(0xA5BA, n + 11) && Clear(0xBB8C, n + 12);
    assert Clear(0x8DA4, n + 13) && Clear(0xA5EC, n + 14) && Clear(0xED8C, n + 15) && Clear(0x4D6D, n + 16);
  }

  lemma Walk15(n: nat)
    requires Clear(0xDE61, n)
    ensures Clear(0x8861, n + 16)
  {
    assert Clear(0xA029, n + 1) && Clear(0x2880, n + 2) && Clear(0x8060, n + 3) && Clear(0xE1FE, n + 4);
    assert Clear(0xFF7C, n + 5) && Clear(0x7D54, n + 6) && Clear(0x54AC, n + 7) && Clear(0xECCF, n + 8);
    assert Clear(0x4E6E, n + 9) && Clear(0x6EE8, n + 10) && Clear(0x6896, n + 11) && Clear(0xD69F, n + 12);
    assert Clear(0xDE37, n + 13) && Clear(0xF629, n + 14) && Clear(0xE849, n + 15) && Clear(0x8861, n + 16);
  }

  /** Starting from 0xA001, which is 1 shifted once. */
  lemma NoReturn()
    ensures Clear(POLYNOMIAL, 256)
  {
    hide Clear;
    NothingToClear(0xDE61);
    Walk15(0);
    Walk14(16);
    Walk13(32);
    Walk12(48);
    Walk11(64);
    Walk10(80);
    Walk9(96);
    Walk8(112);
    Walk7(128);
    Walk6(144);
    Walk5(160);
    Walk4(176);
    Walk3(192);
    Walk2(208);
    Walk1(224);
    Walk0(240);
  }

  lemma NothingToClear(r: word)
    ensures Clear(r, 0)
  {
  }

  lemma ClearShift(r: word, n: nat)
    requires n > 0 && Clear(r, n)
    ensures r != 1 && Clear(Shift8(r), n - 1)
    ensures Shift(r) != 1 && Shift(Shift(r)) != 1 && Shift(Shift(Shift(r))) != 1
    ensures Shift(Shift(Shift(Shift(r)))) != 1
    ensures Shift(Shift(Shift(Shift(Shift(r))))) != 1
    ensures Shift(Shift(Shift(Shift(Shift(Shift(r)))))) != 1
    ensures Shift(Shift(Shift(Shift(Shift(Shift(Shift(r))))))) != 1
  {
    hide Shift, Next;
    NextIsShift(r);
    NextIsShift(Shift(r));
    NextIsShift(Shift(Shift(r)));
    NextIsShift(Shift(Shift(Shift(r))));
    NextIsShift(Shift(Shift(Shift(Shift(r)))));
    NextIsShift(Shift(Shift(Shift(Shift(Shift(r))))));
    NextIsShift(Shift(Shift(Shift(Shift(Shift(Shift(r)))))));
    NextIsShift(Shift(Shift(Shift(Shift(Shift(Shift(Shift(r))))))));
  }

  function Shifts(r: word, k: nat): word
    decreases k
  {
    if k == 0 then r else Shifts(Shift(r), k - 1)
  }

  lemma {:induction false} ClearMeans(r: word, n: nat, k: nat)
    requires Clear(r, n) && k < 8 * n
    ensures Shifts(r, k) != 1
    decreases n
  {
    hide Shift, Clear;
    ClearShift(r, n);
    if k >= 8 {
      EightShifts(r, k);
      ClearMeans(Shift8(r), n - 1, k - 8);
    } else {
      FewShifts(r, k);
    }
  }

  lemma EightShifts(r: word, k: nat)
    requires k >= 8
    ensures Shifts(r, k) == Shifts(Shift8(r), k - 8)
  {
    hide Shift;
    var r1 := Shift(r);
    var r2 := Shift(r1);
    var r3 := Shift(r2);
    var r4 := Shift(r3);
    var r5 := Shift(r4);
    var r6 := Shift(r5);
    var r7 := Shift(r6);
    assert Shifts(r, k) == Shifts(r1, k - 1) == Shifts(r2, k - 2) == Shifts(r3, k - 3) == Shifts(r4, k - 4);
    assert Shifts(r4, k - 4) == Shifts(r5, k - 5) == Shifts(r6, k - 6) == Shifts(r7, k - 7);
  }

  lemma FewShifts(r: word, k: nat)
    requires k < 8
    ensures Shifts(r, k) == match k
                            case 0 => r
                            case 1 => Shift(r)
                            case 2 => Shift(Shift(r))
                            case 3 => Shift(Shift(Shift(r)))
                            case 4 => Shift(Shift(Shift(Shift(r))))
                            case 5 => Shift(Shift(Shift(Shift(Shift(r)))))
                            case 6 => Shift(Shift(Shift(Shift(Shift(Shift(r))))))
                            case _ => Shift(Shift(Shift(Shift(Shift(Shift(Shift(r)))))))
    decreases k
  {
    hide Shift;
    if k > 0 {
      FewShifts(Shift(r), k - 1);
    }
  }

  // ----- two wrong bits -----

  lemma {:induction false} ZerosShift(r: word, k: nat)
    ensures FeedBits(r, Zeros(k)) == Shifts(r, k)
    decreases k
  {
    hide Plus, Shift;
    if k == 0 {
    } else {
      assert Zeros(k) == [false] + Zeros(k - 1);
      FeedBitsAppend(r, [false], Zeros(k - 1));
      OneBit(r, false);
      PlusSelf(r, 0);
      ZerosShift(Shift(r), k - 1);
    }
  }

  lemma SecondBit(r: word)
    ensures FeedBit(r, true) == 0 <==> r == 1
  {
    hide Shift, Plus;
    ShiftKernel(Plus(r, 1));
    PlusSelf(r, 1);
  }

  /** Two wrong bits fewer than 2049 places apart leave a trace. */
  lemma TwoBits(before: nat, between: nat, after: nat)
    requires between < 2048
    ensures FeedBits(0, Zeros(before) + ([true] + (Zeros(between) + ([true] + Zeros(after))))) != 0
  {
    hide FeedBit, FeedBits, Clear, Shifts;
    FeedBitsAppend(0, Zeros(before), [true] + (Zeros(between) + ([true] + Zeros(after))));
    ZerosKeepZero(before);
    FeedBitsAppend(0, [true], Zeros(between) + ([true] + Zeros(after)));
    OneBit(0, true);
    FirstBitFills();
    FeedBitsAppend(POLYNOMIAL, Zeros(between), [true] + Zeros(after));
    ZerosShift(POLYNOMIAL, between);
    NoReturn();
    ClearMeans(POLYNOMIAL, 256, between);
    var r := Shifts(POLYNOMIAL, between);
    FeedBitsAppend(r, [true], Zeros(after));
    OneBit(r, true);
    SecondBit(r);
    ZerosKeepNonzero(FeedBit(r, true), after);
  }

  // ----- counting wrong bits -----

  lemma {:induction false} OnesAppend(a: seq<bool>, b: seq<bool>)
    ensures Ones(a + b) == Ones(a) + Ones(b)
  {
    if b == [] {
      assert a + b == a;
    } else {
      var n := |b| - 1;
      assert (a + b)[..|a| + n] == a + b[..n];
      OnesAppend(a, b[..n]);
    }
  }

  lemma {:induction false} OnesOfZeros(n: nat)
    ensures Ones(Zeros(n)) == 0
  {
    if n == 0 {
    } else {
      assert Zeros(n)[..n - 1] == Zeros(n - 1);
      OnesOfZeros(n - 1);
    }
  }

  lemma {:induction false} NoOnes(bits: seq<bool>)
    requires Ones(bits) == 0
    ensures bits == Zeros(|bits|)
  {
    if bits == [] {
    } else {
      NoOnes(bits[..|bits| - 1]);
    }
  }

  /** A bit string with a one in it, taken apart at the first. */
  lemma SplitAtFirst(bits: seq<bool>) returns (f: nat, rest: seq<bool>)
    requires Ones(bits) > 0
    ensures bits == Zeros(f) + ([true] + rest) && Ones(rest) == Ones(bits) - 1
  {
    f := 0;
    while f < |bits| && !bits[f]
      invariant f <= |bits| && bits[..f] == Zeros(f)
    {
      f := f + 1;
    }
    OnesOfZeros(f);
    assert bits[..|bits|] == bits;
    rest := bits[f + 1..];
    OnesAppend(Zeros(f), [true] + rest);
    OnesAppend([true], rest);
    assert [true][..0] == [];
  }

  lemma TwoOnesLeaveTrace(bits: seq<bool>)
    requires Ones(bits) == 2 && |bits| <= 2048
    ensures FeedBits(0, bits) != 0
  {
    hide FeedBits, Ones;
    var before, rest := SplitAtFirst(bits);
    var between, last := SplitAtFirst(rest);
    NoOnes(last);
    TwoBits(before, between, |last|);
  }

  /** Every error of one, two or three bits is detected in every frame of up to 256 bytes. */
  lemma SmallErrorsDetected(frame: seq<byte>, error: seq<byte>)
    requires Accepted(frame) && |error| == |frame| <= 256
    requires 1 <= Ones(Bits(error)) <= 3
    ensures !Accepted(Xor(frame, error))
  {
    hide FeedBits, Ones, Bits, Accepted;
    if Ones(Bits(error)) == 2 {
      BitsLength(error);
      TwoOnesLeaveTrace(Bits(error));
      UndetectedIff(frame, error);
    } else {
      OddErrorsDetected(frame, error);
    }
  }

  lemma BitsLength(s: seq<byte>)
    ensures |Bits(s)| == 8 * |s|
  {
  }

  // ----- four is too many -----

  lemma {:induction false} BitsAppend(a: seq<byte>, b: seq<byte>)
    ensures Bits(a + b) == Bits(a) + Bits(b)
  {
    hide ByteBits;
    if b == [] {
      assert a + b == a;
    } else {
      var n := |b| - 1;
      assert (a + b)[..|a| + n] == a + b[..n];
      BitsAppend(a, b[..n]);
    }
  }

  lemma {:induction false} ZeroBytesHaveNoOnes(n: nat)
    ensures Ones(Bits(seq(n, _ => 0 as byte))) == 0
  {
    hide Ones;
    if n == 0 {
      OnesOfZeros(0);
      assert Zeros(0) == [];
    } else {
      var z := seq(n, _ => 0 as byte);
      assert z[..n - 1] == seq(n - 1, _ => 0 as byte);
      ZeroBytesHaveNoOnes(n - 1);
      OnesAppend(Bits(z[..n - 1]), ByteBits(0));
      OnesOfZeros(8);
      assert ByteBits(0) == Zeros(8);
    }
  }

  lemma OnesNext(q: seq<bool>, k: nat)
    requires k < |q|
    ensures Ones(q[..k + 1]) == Ones(q[..k]) + if q[k] then 1 else 0
  {
    assert q[..k + 1][..k] == q[..k];
  }

  lemma OnesOfEight(q: seq<bool>)
    requires |q| == 8
    ensures Ones(q) == (if q[0] then 1 else 0) + (if q[1] then 1 else 0) + (if q[2] then 1 else 0)
                     + (if q[3] then 1 else 0) + (if q[4] then 1 else 0) + (if q[5] then 1 else 0)
                     + (if q[6] then 1 else 0) + (if q[7] then 1 else 0)
  {
    hide Ones;
    OnesOfZeros(0);
    assert q[..0] == Zeros(0) && q[..8] == q;
    OnesNext(q, 0);
    OnesNext(q, 1);
    OnesNext(q, 2);
    OnesNext(q, 3);
    OnesNext(q, 4);
    OnesNext(q, 5);
    OnesNext(q, 6);
    OnesNext(q, 7);
  }

  lemma GeneratorOnes()
    ensures Ones(Bits([0x03, 0x40, 0x01])) == 4
  {
    hide Ones;
    OnesOfEight(ByteBits(0x03));
    OnesOfEight(ByteBits(0x40));
    OnesOfEight(ByteBits(0x01));
    BitsOfThree(0x03, 0x40, 0x01);
    OnesAppend(ByteBits(0x03) + ByteBits(0x40), ByteBits(0x01));
    OnesAppend(ByteBits(0x03), ByteBits(0x40));
  }

  lemma BitsOfThree(a: byte, b: byte, c: byte)
    ensures Bits([a, b, c]) == ByteBits(a) + ByteBits(b) + ByteBits(c)
  {
    hide ByteBits;
    assert [a, b, c][..2] == [a, b] && [a, b][..1] == [a] && [a][..0] == [];
    assert Bits([a]) == ByteBits(a);
    assert Bits([a, b]) == Bits([a]) + ByteBits(b);
  }

  /** Four is the limit: every frame of three bytes or more has a four-bit error that passes. */
  lemma FourBitErrorPasses(frame: seq<byte>)
    requires Accepted(frame) && |frame| >= 3
    ensures var error := [0x03, 0x40, 0x01] + seq(|frame| - 3, _ => 0 as byte);
            Ones(Bits(error)) == 4 && Accepted(Xor(frame, error)) && Xor(frame, error) != frame
  {
    hide Ones, Bits, Accepted;
    var z := seq(|frame| - 3, _ => 0 as byte);
    SeventeenBitBurstPasses(frame);
    BitsAppend([0x03, 0x40, 0x01], z);
    OnesAppend(Bits([0x03, 0x40, 0x01]), Bits(z));
    GeneratorOnes();
    ZeroBytesHaveNoOnes(|frame| - 3);
  }
}
