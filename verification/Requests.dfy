/**
 Coils packed into a request or a response (src/request.cpp, src/response.cpp).
 The methods are those of `Request` and `Response`; their receiver is the
 message they change.
 */
module Requests {
  import opened Bytes
  import opened Frames
  import opened Messages

  // ----- one bit of a byte -----

  function Mask(j: nat): byte
    requires j < 8
  {
    1 << j
  }

  predicate Bit(b: byte, j: nat)
    requires j < 8
  {
    b & Mask(j) != 0
  }

  function PutBit(b: byte, j: nat, value: bool): byte
    requires j < 8
  {
    var cleared := b & !Mask(j);
    cleared | if value then Mask(j) else 0
  }

  lemma MaskValue(j: nat)
    requires j < 8
    ensures Mask(j) == match j case 0 => 0x01 case 1 => 0x02 case 2 => 0x04 case 3 => 0x08
                               case 4 => 0x10 case 5 => 0x20 case 6 => 0x40 case _ => 0x80
  {
  }

  /** Bit `j` is the `j`-th the link transmits: the least significant one comes first. */
  lemma BitIsTransmitted(b: byte, j: nat)
    requires j < 8
    ensures Bit(b, j) == ByteBits(b)[j]
  {
    MaskValue(j);
  }

  lemma MasksDiffer(j: nat, k: nat)
    requires j < 8 && k < 8
    ensures if j == k then Mask(j) != 0 else Mask(k) & Mask(j) == 0
  {
    MaskValue(j);
    MaskValue(k);
  }

  lemma PutBitOnMasks(b: byte, p: byte, q: byte, value: bool)
    requires p & q == 0
    ensures ((b & !p) | if value then p else 0) & q == b & q
  {
  }

  lemma PutBitOnSelf(b: byte, p: byte, value: bool)
    ensures ((b & !p) | if value then p else 0) & p == if value then p else 0
  {
  }

  lemma BitAfterPut(b: byte, j: nat, value: bool, k: nat)
    requires j < 8 && k < 8
    ensures Bit(PutBit(b, j, value), k) == if j == k then value else Bit(b, k)
  {
    hide Mask;
    MasksDiffer(j, k);
    MasksDiffer(k, j);
    if j == k {
      PutBitOnSelf(b, Mask(j), value);
    } else {
      PutBitOnMasks(b, Mask(j), Mask(k), value);
    }
  }

  // ----- bits of a PDU -----

  /** Coils of a write request start at PDU byte 6. */
  const FIRST_COIL_BYTE: nat := 6

  /** A response counts its bits from PDU byte 0, the function code. */
  const FIRST_RESPONSE_BYTE: nat := 0

  /** Bit `i`, counted from PDU byte `first` on, lies in the buffer. */
  predicate HasBit(m: Adu, first: nat, i: nat) {
    m.Has(first + i / 8)
  }

  predicate BitAt(m: Adu, first: nat, i: nat)
    requires HasBit(m, first, i)
  {
    Bit(m.Byte(first + i / 8), i % 8)
  }

  function WithBit(m: Adu, first: nat, i: nat, value: bool): Adu
    requires HasBit(m, first, i)
  {
    m.SetByte(first + i / 8, PutBit(m.Byte(first + i / 8), i % 8, value))
  }

  /**
   `now` is `was` with bits index..index+|values| replaced: those bits hold
   the values, every other bit and every byte before the first is kept, and
   the size covers the last byte written.
   */
  ghost predicate BitsSet(was: Adu, now: Adu, first: nat, index: nat, values: seq<bool>) {
    && now.net == was.net && |now.bytes| == |was.bytes|
    && now.response == was.response && now.nextId == was.nextId
    && (forall k {:trigger now.bytes[k]} :: 0 <= k < |was.bytes| && k < was.Header() + first
          ==> now.bytes[k] == was.bytes[k])
    && (forall i: nat {:trigger BitAt(now, first, i)} :: HasBit(was, first, i) ==>
          BitAt(now, first, i)
          == if index <= i < index + |values| then values[i - index] else BitAt(was, first, i))
    && now.size == if values == [] then was.size
                   else was.Covering(was.Header() + first + (index + |values| - 1) / 8 + 1)
  }

  lemma OneBitSet(was: Adu, first: nat, index: nat, value: bool)
    requires HasBit(was, first, index)
    ensures BitsSet(was, WithBit(was, first, index, value), first, index, [value])
  {
    hide Bit, PutBit, Mask;
    var now := WithBit(was, first, index, value);
    forall i: nat | HasBit(was, first, i)
      ensures BitAt(now, first, i) == if i == index then value else BitAt(was, first, i)
    {
      if i / 8 == index / 8 {
        BitAfterPut(was.Byte(first + index / 8), index % 8, value, i % 8);
      }
    }
  }

  lemma NoBitsSet(m: Adu, first: nat, index: nat)
    ensures BitsSet(m, m, first, index, [])
  {
  }

  lemma BitsSetNext(was: Adu, mid: Adu, now: Adu, first: nat, index: nat, values: seq<bool>, value: bool)
    requires BitsSet(was, mid, first, index, values) && BitsSet(mid, now, first, index + |values|, [value])
    ensures BitsSet(was, now, first, index, values + [value])
  {
    hide BitAt;
    forall i: nat | HasBit(was, first, i)
      ensures BitAt(now, first, i)
           == if index <= i < index + |values| + 1 then (values + [value])[i - index] else BitAt(was, first, i)
    {
      assert HasBit(mid, first, i);
      assert BitAt(mid, first, i) == BitAt(mid, first, i);
    }
  }

  /** Setting bits and reading one of them gives the value set; any other keeps its own. */
  lemma BitsReadBack(was: Adu, now: Adu, first: nat, index: nat, values: seq<bool>, i: nat, other: nat)
    requires BitsSet(was, now, first, index, values)
    requires i < |values| && HasBit(was, first, index + i) && HasBit(was, first, other)
    ensures BitAt(now, first, index + i) == values[i]
    ensures !(index <= other < index + |values|) ==> BitAt(now, first, other) == BitAt(was, first, other)
    ensures forall k :: 0 <= k < first && was.Has(k) ==> now.Byte(k) == was.Byte(k)
    ensures now.size >= now.Header() + first + (index + i) / 8 + 1
  {
    hide BitAt;
    assert BitAt(now, first, index + i) == values[index + i - index];
  }

  method SetBit(msg: Message, first: nat, index: nat, value: bool)
    requires msg.Valid() && HasBit(msg.View(), first, index)
    modifies msg`aduSize, msg.adu
    ensures msg.Valid() && msg.View() == WithBit(old(msg.View()), first, index, value)
    ensures |msg.View().bytes| == |old(msg.View().bytes)| && msg.View().net == old(msg.View().net)
  {
    hide PutBit, Mask;
    var bit, i := index % 8, index / 8;
    var b := msg.GetByte(first + i);
    b := PutBit(b, bit, value);
    msg.SetByte(first + i, b);
  }

  /** The loop of `setCoilValues` and `setBitValues`, which differ in the first byte only. */
  method SetBits(msg: Message, first: nat, index: nat, values: seq<bool>)
    requires msg.Valid() && (values != [] ==> HasBit(msg.View(), first, index + |values| - 1))
    modifies msg`aduSize, msg.adu
    ensures msg.Valid() && BitsSet(old(msg.View()), msg.View(), first, index, values)
  {
    hide BitAt, BitsSet, WithBit;
    ghost var was := msg.View();
    var i := 0;
    NoBitsSet(was, first, index);
    while i < |values|
      invariant 0 <= i <= |values| && msg.Valid()
      invariant BitsSet(was, msg.View(), first, index, values[..i])
      invariant |msg.View().bytes| == |was.bytes| && msg.View().net == was.net
    {
      ghost var mid := msg.View();
      SetBit(msg, first, index + i, values[i]);
      OneBitSet(mid, first, index + i, values[i]);
      BitsSetNext(was, mid, msg.View(), first, index, values[..i], values[i]);
      assert values[..i + 1] == values[..i] + [values[i]];
      i := i + 1;
    }
    assert values[..i] == values;
  }

  method GetBit(msg: Message, first: nat, index: nat) returns (value: bool)
    requires msg.Valid() && HasBit(msg.View(), first, index)
    ensures value == BitAt(msg.View(), first, index)
  {
    var b := msg.GetByte(first + index / 8);
    value := Bit(b, index % 8);
  }

  method GetBits(msg: Message, first: nat, index: nat, quantity: nat, values: array<bool>)
    requires msg.Valid() && values.Length >= quantity && values as object != msg.adu
    requires quantity > 0 ==> HasBit(msg.View(), first, index + quantity - 1)
    modifies values
    ensures forall i :: 0 <= i < quantity ==> values[i] == BitAt(msg.View(), first, index + i)
    ensures forall i :: quantity <= i < values.Length ==> values[i] == old(values[i])
  {
    hide BitAt;
    var i := 0;
    ghost var view := msg.View();
    while i < quantity
      invariant 0 <= i <= quantity && msg.View() == view
      invariant forall j :: 0 <= j < i ==> values[j] == BitAt(view, first, index + j)
      invariant forall j :: i <= j < values.Length ==> values[j] == old(values[j])
    {
      var value := GetBit(msg, first, index + i);
      values[i] := value;
      i := i + 1;
    }
  }

  // ----- the coils of a request -----

  method SetCoilValue(msg: Message, index: nat, value: bool)
    requires msg.Valid() && HasBit(msg.View(), FIRST_COIL_BYTE, index)
    modifies msg`aduSize, msg.adu
    ensures msg.Valid() && BitsSet(old(msg.View()), msg.View(), FIRST_COIL_BYTE, index, [value])
    ensures CoilsTaken(old(msg.View()), msg.View(), index, [value])
  {
    hide BitsSet, WithBit, CoilsTaken;
    SetBit(msg, FIRST_COIL_BYTE, index, value);
    OneBitSet(old(msg.View()), FIRST_COIL_BYTE, index, value);
    CoilsAreTaken(old(msg.View()), msg.View(), index, [value]);
  }

  /** `setCoilValues`: exactly the chosen coils change. */
  method SetCoilValues(msg: Message, index: nat, values: seq<bool>)
    requires msg.Valid() && (values != [] ==> HasBit(msg.View(), FIRST_COIL_BYTE, index + |values| - 1))
    modifies msg`aduSize, msg.adu
    ensures msg.Valid() && BitsSet(old(msg.View()), msg.View(), FIRST_COIL_BYTE, index, values)
    ensures CoilsTaken(old(msg.View()), msg.View(), index, values)
  {
    hide BitsSet, CoilsTaken;
    SetBits(msg, FIRST_COIL_BYTE, index, values);
    CoilsAreTaken(old(msg.View()), msg.View(), index, values);
  }

  /**
   Section 6.11 of the MODBUS Application Protocol V1.1b3: coil `i` is bit
   i % 8, counted from the least significant one, of PDU byte 6 + i / 8.
   The coils of the range have the values, the others and PDU bytes 0 to 5
   what they had.
   */
  ghost predicate CoilsTaken(was: Adu, now: Adu, index: nat, values: seq<bool>) {
    && |now.bytes| == |was.bytes| && now.net == was.net
    && (forall k :: 0 <= k < 6 && was.Has(k) ==> now.Byte(k) == was.Byte(k))
    && (forall i: nat {:trigger ByteBits(now.Byte(6 + i / 8))[i % 8]} :: was.Has(6 + i / 8) ==>
          ByteBits(now.Byte(6 + i / 8))[i % 8]
          == if index <= i < index + |values| then values[i - index] else ByteBits(was.Byte(6 + i / 8))[i % 8])
  }

  lemma CoilsAreTaken(was: Adu, now: Adu, index: nat, values: seq<bool>)
    requires BitsSet(was, now, FIRST_COIL_BYTE, index, values)
    ensures CoilsTaken(was, now, index, values)
  {
    hide Bit, ByteBits;
    forall i: nat | was.Has(6 + i / 8)
      ensures ByteBits(now.Byte(6 + i / 8))[i % 8]
           == if index <= i < index + |values| then values[i - index] else ByteBits(was.Byte(6 + i / 8))[i % 8]
    {
      BitIsTransmitted(now.Byte(6 + i / 8), i % 8);
      BitIsTransmitted(was.Byte(6 + i / 8), i % 8);
      assert HasBit(was, FIRST_COIL_BYTE, i);
      assert BitAt(now, FIRST_COIL_BYTE, i) == Bit(now.Byte(6 + i / 8), i % 8);
    }
  }

  /** The example of that section: ten coils from 0x13 on, packed as CD 01. */
  lemma CoilsOfTheStandard(was: Adu, now: Adu)
    requires was.Valid() && was.Pdu() == [0x0F, 0x00, 0x13, 0x00, 0x0A, 0x02, 0x00, 0x00]
    requires BitsSet(was, now, FIRST_COIL_BYTE, 0,
                     [true, false, true, true, false, false, true, true, true, false])
    ensures now.Valid() && now.Pdu() == [0x0F, 0x00, 0x13, 0x00, 0x0A, 0x02, 0xCD, 0x01]
  {
    hide ByteBits, Bit, BitsSet, CoilsTaken;
    var values := [true, false, true, true, false, false, true, true, true, false];
    OctetsOfTheStandard();
    BitsSetSize(was, now, FIRST_COIL_BYTE, 0, values);
    CoilsAreTaken(was, now, 0, values);
    SixteenCoils(was, now, values);
    ByteBitsDetermine(now.Byte(6), 0xCD);
    ByteBitsDetermine(now.Byte(7), 0x01);
    forall k | 0 <= k < 8
      ensures now.Byte(k) == [0x0F, 0x00, 0x13, 0x00, 0x0A, 0x02, 0xCD, 0x01][k]
    {
      assert was.Pdu()[k] == was.Byte(k);
      if k < 6 {
        KeptInFront(was, now, values, k);
      }
    }
  }

  lemma KeptInFront(was: Adu, now: Adu, values: seq<bool>, k: nat)
    requires CoilsTaken(was, now, 0, values) && k < 6 && was.Has(k)
    ensures now.Has(k) && now.Byte(k) == was.Byte(k)
  {
  }

  lemma BitsSetSize(was: Adu, now: Adu, first: nat, index: nat, values: seq<bool>)
    requires BitsSet(was, now, first, index, values)
    ensures now.net == was.net && |now.bytes| == |was.bytes|
    ensures now.size == if values == [] then was.size
                        else was.Covering(was.Header() + first + (index + |values| - 1) / 8 + 1)
  {
  }

  lemma OctetsOfTheStandard()
    ensures ByteBits(0xCD) == [true, false, true, true, false, false, true, true]
    ensures ByteBits(0x01) == [true, false, false, false, false, false, false, false]
    ensures ByteBits(0x00) == [false, false, false, false, false, false, false, false]
  {
  }

  /** The first two bytes of coils, when they were zero and up to sixteen are set. */
  lemma SixteenCoils(was: Adu, now: Adu, values: seq<bool>)
    requires CoilsTaken(was, now, 0, values) && |values| <= 16 && was.Has(7)
    requires was.Has(6) && was.Byte(6) == 0 && was.Byte(7) == 0
    requires ByteBits(0x00) == [false, false, false, false, false, false, false, false]
    ensures now.Has(6) && now.Has(7)
    ensures forall j: nat {:trigger ByteBits(now.Byte(6))[j]} :: j < 8 ==>
              ByteBits(now.Byte(6))[j] == (j < |values| && values[j])
    ensures forall j: nat {:trigger ByteBits(now.Byte(7))[j]} :: j < 8 ==>
              ByteBits(now.Byte(7))[j] == (j + 8 < |values| && values[j + 8])
  {
    hide ByteBits;
    forall j: nat | j < 8
      ensures ByteBits(now.Byte(6))[j] == (j < |values| && values[j])
      ensures ByteBits(now.Byte(7))[j] == (j + 8 < |values| && values[j + 8])
    {
      assert j / 8 == 0 && j % 8 == j && (j + 8) / 8 == 1 && (j + 8) % 8 == j;
      assert ByteBits(now.Byte(6 + j / 8))[j % 8] == (j < |values| && values[j]);
      assert ByteBits(now.Byte(6 + (j + 8) / 8))[(j + 8) % 8] == (j + 8 < |values| && values[j + 8]);
    }
  }

  lemma ByteBitsDetermine(a: byte, b: byte)
    requires forall j: nat {:trigger ByteBits(a)[j]} :: j < 8 ==> ByteBits(a)[j] == ByteBits(b)[j]
    ensures a == b
  {
    hide Bit, ByteBits;
    forall j: nat | j < 8
      ensures Bit(a, j) == Bit(b, j)
    {
      BitIsTransmitted(a, j);
      BitIsTransmitted(b, j);
    }
    BitsDetermineByte(a, b);
  }

  method CoilValue(msg: Message, index: nat) returns (value: bool)
    requires msg.Valid() && HasBit(msg.View(), FIRST_COIL_BYTE, index)
    ensures value == BitAt(msg.View(), FIRST_COIL_BYTE, index)
    ensures value == ByteBits(msg.View().Byte(6 + index / 8))[index % 8]
  {
    hide ByteBits, Bit;
    BitIsTransmitted(msg.View().Byte(6 + index / 8), index % 8);
    value := GetBit(msg, FIRST_COIL_BYTE, index);
  }

  method CoilValues(msg: Message, index: nat, quantity: nat, values: array<bool>)
    requires msg.Valid() && values.Length >= quantity && values as object != msg.adu
    requires quantity > 0 ==> HasBit(msg.View(), FIRST_COIL_BYTE, index + quantity - 1)
    modifies values
    ensures forall i :: 0 <= i < quantity ==> values[i] == BitAt(msg.View(), FIRST_COIL_BYTE, index + i)
    ensures forall i :: 0 <= i < quantity ==>
              values[i] == ByteBits(msg.View().Byte(6 + (index + i) / 8))[(index + i) % 8]
    ensures forall i :: quantity <= i < values.Length ==> values[i] == old(values[i])
  {
    hide Bit, ByteBits;
    GetBits(msg, FIRST_COIL_BYTE, index, quantity, values);
    forall i | 0 <= i < quantity
      ensures values[i] == ByteBits(msg.View().Byte(6 + (index + i) / 8))[(index + i) % 8]
    {
      BitIsTransmitted(msg.View().Byte(6 + (index + i) / 8), (index + i) % 8);
    }
  }

  // ----- the bits of a response -----

  method SetBitValue(msg: Message, index: nat, value: bool)
    requires msg.Valid() && HasBit(msg.View(), FIRST_RESPONSE_BYTE, index)
    modifies msg`aduSize, msg.adu
    ensures msg.Valid() && msg.View() == WithBit(old(msg.View()), FIRST_RESPONSE_BYTE, index, value)
    ensures BitsSet(old(msg.View()), msg.View(), FIRST_RESPONSE_BYTE, index, [value])
  {
    hide BitsSet, WithBit;
    SetBit(msg, FIRST_RESPONSE_BYTE, index, value);
    OneBitSet(old(msg.View()), FIRST_RESPONSE_BYTE, index, value);
  }

  method SetBitValues(msg: Message, index: nat, values: seq<bool>)
    requires msg.Valid() && (values != [] ==> HasBit(msg.View(), FIRST_RESPONSE_BYTE, index + |values| - 1))
    modifies msg`aduSize, msg.adu
    ensures msg.Valid() && BitsSet(old(msg.View()), msg.View(), FIRST_RESPONSE_BYTE, index, values)
  {
    SetBits(msg, FIRST_RESPONSE_BYTE, index, values);
  }

  method BitValue(msg: Message, index: nat) returns (value: bool)
    requires msg.Valid() && HasBit(msg.View(), FIRST_RESPONSE_BYTE, index)
    ensures value == BitAt(msg.View(), FIRST_RESPONSE_BYTE, index)
  {
    value := GetBit(msg, FIRST_RESPONSE_BYTE, index);
  }

  method BitValues(msg: Message, index: nat, quantity: nat, values: array<bool>)
    requires msg.Valid() && values.Length >= quantity && values as object != msg.adu
    requires quantity > 0 ==> HasBit(msg.View(), FIRST_RESPONSE_BYTE, index + quantity - 1)
    modifies values
    ensures forall i :: 0 <= i < quantity ==> values[i] == BitAt(msg.View(), FIRST_RESPONSE_BYTE, index + i)
    ensures forall i :: quantity <= i < values.Length ==> values[i] == old(values[i])
  {
    GetBits(msg, FIRST_RESPONSE_BYTE, index, quantity, values);
  }

  lemma MasksDetermineByte(a: byte, b: byte)
    requires forall j: nat :: j < 8 ==> a & Mask(j) == b & Mask(j)
    ensures a == b
  {
    hide Mask;
    MaskValue(0);
    MaskValue(1);
    MaskValue(2);
    MaskValue(3);
    MaskValue(4);
    MaskValue(5);
    MaskValue(6);
    MaskValue(7);
  }

  lemma MaskIsSingle(b: byte, j: nat)
    requires j < 8
    ensures Mask(j) != 0
    ensures b & Mask(j) == if Bit(b, j) then Mask(j) else 0
  {
    MaskValue(j);
  }

  lemma BitsDetermineByte(a: byte, b: byte)
    requires forall j: nat :: j < 8 ==> Bit(a, j) == Bit(b, j)
    ensures a == b
  {
    hide Mask, Bit;
    forall j: nat | j < 8
      ensures a & Mask(j) == b & Mask(j)
    {
      MaskIsSingle(a, j);
      MaskIsSingle(b, j);
    }
    MasksDetermineByte(a, b);
  }

  /** The bits of byte `first + k` are those from 8 * k to 8 * k + 7. */
  lemma BitOfByte(m: Adu, first: nat, k: nat, j: nat)
    requires j < 8 && m.Has(first + k)
    ensures HasBit(m, first, 8 * k + j) && BitAt(m, first, 8 * k + j) == Bit(m.Byte(first + k), j)
  {
    assert (8 * k + j) / 8 == k && (8 * k + j) % 8 == j;
  }

  /** The values that fall into byte `k`, which is `b`, are the bits it already has. */
  ghost predicate Agree(b: byte, k: nat, index: nat, values: seq<bool>) {
    forall j: nat {:trigger Bit(b, j)} :: j < 8 && index <= 8 * k + j < index + |values|
      ==> values[8 * k + j - index] == Bit(b, j)
  }

  /** A byte survives bit writes exactly when they miss it or give its bits the values they had. */
  lemma ByteSurvivesIff(was: Adu, now: Adu, first: nat, index: nat, values: seq<bool>, k: nat)
    requires was.Has(first + k) && BitsSet(was, now, first, index, values)
    ensures now.Byte(first + k) == was.Byte(first + k) <==> Agree(was.Byte(first + k), k, index, values)
  {
    hide Bit, BitAt;
    var a, b := was.Byte(first + k), now.Byte(first + k);
    forall j: nat | j < 8
      ensures Bit(b, j) == if index <= 8 * k + j < index + |values| then values[8 * k + j - index] else Bit(a, j)
    {
      BitOfByte(was, first, k, j);
      BitOfByte(now, first, k, j);
    }
    if Agree(a, k, index, values) {
      BitsDetermineByte(b, a);
    }
  }

  /** The function code survives `setBitValue` and `setBitValues` exactly when they leave its bits as they are. */
  lemma FunctionCodeSurvivesIff(was: Adu, now: Adu, index: nat, values: seq<bool>)
    requires was.Has(0) && BitsSet(was, now, FIRST_RESPONSE_BYTE, index, values)
    ensures now.Byte(0) == was.Byte(0)
       <==> forall j: nat :: index <= j < index + |values| && j < 8 ==> values[j - index] == Bit(was.Byte(0), j)
  {
    hide Bit;
    ByteSurvivesIff(was, now, FIRST_RESPONSE_BYTE, index, values, 0);
  }

  /** The byte count at PDU byte 1, likewise. */
  lemma ByteCountSurvivesIff(was: Adu, now: Adu, index: nat, values: seq<bool>)
    requires was.Has(1) && BitsSet(was, now, FIRST_RESPONSE_BYTE, index, values)
    ensures now.Byte(1) == was.Byte(1)
       <==> forall j: nat :: j < 8 && index <= 8 + j < index + |values|
              ==> values[8 + j - index] == Bit(was.Byte(1), j)
  {
    hide Bit;
    ByteSurvivesIff(was, now, FIRST_RESPONSE_BYTE, index, values, 1);
  }

  // ----- the documented place -----

  /** Where the documentation puts the bits of a response: from PDU byte 2 on, behind the header. */
  const DOCUMENTED_BYTE: nat := 2

  lemma SixteenFurther(m: Adu, i: nat)
    requires HasBit(m, DOCUMENTED_BYTE, i)
    ensures HasBit(m, FIRST_RESPONSE_BYTE, i + 16)
    ensures BitAt(m, DOCUMENTED_BYTE, i) == BitAt(m, FIRST_RESPONSE_BYTE, i + 16)
  {
    assert (i + 16) / 8 == i / 8 + 2 && (i + 16) % 8 == i % 8;
  }

  /** What the documented place of value `i` holds: the value sixteen further on, or the bit that was there. */
  predicate Found(was: Adu, index: nat, values: seq<bool>, i: nat)
    requires i < |values| && HasBit(was, DOCUMENTED_BYTE, index + i)
  {
    if i + 16 < |values| then values[i + 16] else BitAt(was, DOCUMENTED_BYTE, index + i)
  }

  /**
   A value can be read in its documented place exactly when the value sixteen
   further on, written there instead, or else the bit that was there, equals it.
   */
  lemma InDocumentedPlaceIff(was: Adu, now: Adu, index: nat, values: seq<bool>, i: nat)
    requires BitsSet(was, now, FIRST_RESPONSE_BYTE, index, values)
    requires i < |values| && HasBit(was, DOCUMENTED_BYTE, index + i)
    ensures BitAt(now, DOCUMENTED_BYTE, index + i) == Found(was, index, values, i)
    ensures BitAt(now, DOCUMENTED_BYTE, index + i) == values[i]
       <==> values[i] == if i + 16 < |values| then values[i + 16] else BitAt(was, DOCUMENTED_BYTE, index + i)
  {
    hide BitAt;
    SixteenFurther(was, index + i);
    SixteenFurther(now, index + i);
    assert BitAt(now, FIRST_RESPONSE_BYTE, index + i + 16) == BitAt(now, FIRST_RESPONSE_BYTE, index + i + 16);
  }

  /** The first sixteen values are the bits they replace, and every value is what its documented place holds. */
  ghost predicate Repeats(was: Adu, index: nat, values: seq<bool>)
    requires values != [] ==> HasBit(was, DOCUMENTED_BYTE, index + |values| - 1)
  {
    && (forall i :: 0 <= i < |values| && i < 16 ==> values[i] == BitAt(was, FIRST_RESPONSE_BYTE, index + i))
    && (forall i :: 0 <= i < |values| ==> values[i] == Found(was, index, values, i))
  }

  lemma DocumentedRepeats(was: Adu, now: Adu, index: nat, values: seq<bool>)
    requires was.Has(1) && (values != [] ==> HasBit(was, DOCUMENTED_BYTE, index + |values| - 1))
    requires BitsSet(was, now, FIRST_RESPONSE_BYTE, index, values)
    requires BitsSet(was, now, DOCUMENTED_BYTE, index, values)
    ensures Repeats(was, index, values)
  {
    hide BitAt;
    forall i | 0 <= i < |values|
      ensures values[i] == Found(was, index, values, i)
    {
      assert BitAt(now, DOCUMENTED_BYTE, index + i) == values[i];
      InDocumentedPlaceIff(was, now, index, values, i);
    }
    forall i | 0 <= i < |values| && i < 16
      ensures values[i] == BitAt(was, FIRST_RESPONSE_BYTE, index + i)
    {
      var p := index + i;
      assert BitAt(now, FIRST_RESPONSE_BYTE, p) == values[i];
      if p < 16 {
        assert now.Byte(p / 8) == was.Byte(p / 8);
        SameByteSameBit(was, now, p);
      } else {
        SixteenFurther(was, p - 16);
        SixteenFurther(now, p - 16);
        assert BitAt(now, DOCUMENTED_BYTE, p - 16) == BitAt(was, DOCUMENTED_BYTE, p - 16);
      }
    }
  }

  lemma SameByteSameBit(was: Adu, now: Adu, p: nat)
    requires HasBit(was, FIRST_RESPONSE_BYTE, p) && HasBit(now, FIRST_RESPONSE_BYTE, p)
    requires now.Byte(p / 8) == was.Byte(p / 8)
    ensures BitAt(now, FIRST_RESPONSE_BYTE, p) == BitAt(was, FIRST_RESPONSE_BYTE, p)
  {
    hide Bit;
  }

  lemma RepeatsKeepHeader(was: Adu, now: Adu, index: nat, values: seq<bool>)
    requires was.Has(1) && (values != [] ==> HasBit(was, DOCUMENTED_BYTE, index + |values| - 1))
    requires BitsSet(was, now, FIRST_RESPONSE_BYTE, index, values) && Repeats(was, index, values)
    ensures now.Byte(0) == was.Byte(0) && now.Byte(1) == was.Byte(1)
  {
    hide Bit, BitAt;
    forall k: nat, j: nat {:trigger Bit(was.Byte(k), j)} | k < 2 && j < 8 && index <= 8 * k + j < index + |values|
      ensures values[8 * k + j - index] == Bit(was.Byte(k), j)
    {
      BitOfByte(was, FIRST_RESPONSE_BYTE, k, j);
    }
    ByteSurvivesIff(was, now, FIRST_RESPONSE_BYTE, index, values, 0);
    ByteSurvivesIff(was, now, FIRST_RESPONSE_BYTE, index, values, 1);
  }

  lemma RepeatsSetBits(was: Adu, now: Adu, index: nat, values: seq<bool>)
    requires was.Has(1) && (values != [] ==> HasBit(was, DOCUMENTED_BYTE, index + |values| - 1))
    requires BitsSet(was, now, FIRST_RESPONSE_BYTE, index, values) && Repeats(was, index, values)
    ensures forall p: nat {:trigger BitAt(now, DOCUMENTED_BYTE, p)} :: HasBit(was, DOCUMENTED_BYTE, p) ==>
              BitAt(now, DOCUMENTED_BYTE, p)
              == if index <= p < index + |values| then values[p - index] else BitAt(was, DOCUMENTED_BYTE, p)
  {
    hide BitAt;
    forall p: nat | HasBit(was, DOCUMENTED_BYTE, p)
      ensures BitAt(now, DOCUMENTED_BYTE, p)
           == if index <= p < index + |values| then values[p - index] else BitAt(was, DOCUMENTED_BYTE, p)
    {
      if index <= p < index + |values| {
        InDocumentedPlaceIff(was, now, index, values, p - index);
      } else {
        SixteenFurther(was, p);
        SixteenFurther(now, p);
        if index <= p + 16 < index + |values| {
          var i := p + 16 - index;
          assert BitAt(now, FIRST_RESPONSE_BYTE, p + 16) == values[i];
          assert i < 16 && index + i == p + 16;
          assert values[i] == BitAt(was, FIRST_RESPONSE_BYTE, index + i);
        } else {
          assert BitAt(now, FIRST_RESPONSE_BYTE, p + 16) == BitAt(was, FIRST_RESPONSE_BYTE, p + 16);
        }
      }
    }
  }

  /**
   `setBitValues` does all of what its documentation says, and no more,
   exactly when writing the values in either place changes nothing, and the
   size covers the documented place already.
   */
  lemma MeetsDocumentationIff(was: Adu, now: Adu, index: nat, values: seq<bool>)
    requires was.Has(1) && (values != [] ==> HasBit(was, DOCUMENTED_BYTE, index + |values| - 1))
    requires BitsSet(was, now, FIRST_RESPONSE_BYTE, index, values)
    ensures BitsSet(was, now, DOCUMENTED_BYTE, index, values)
       <==> (|| values == []
             || (&& Repeats(was, index, values)
                 && was.size >= was.Header() + DOCUMENTED_BYTE + (index + |values| - 1) / 8 + 1))
  {
    hide BitAt;
    if BitsSet(was, now, DOCUMENTED_BYTE, index, values) {
      DocumentedRepeats(was, now, index, values);
    }
    if Repeats(was, index, values) {
      RepeatsKeepHeader(was, now, index, values);
      RepeatsSetBits(was, now, index, values);
    }
  }

  /**
   Bit 8 of a response with ten bits: the function code stays, but the byte
   count changes from 2 to 3 and the documented place keeps its zero.
   */
  lemma EighthBitHitsByteCount()
    ensures var was := Adu(Rtu, [0x11, 0x01, 0x02, 0x00, 0x00], 5, true, 1);
            var now := WithBit(was, FIRST_RESPONSE_BYTE, 8, true);
            && now.Byte(0) == was.Byte(0)
            && was.Byte(1) == 2 && now.Byte(1) == 3
            && !BitAt(now, DOCUMENTED_BYTE, 8)
  {
    MaskValue(0);
  }
}
