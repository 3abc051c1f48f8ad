/**
 Values spread over several registers (include/modbuspp/data.h). The C++
 class is a template over an arithmetic type of any even size; here the
 value is its memory image, and the host's byte order is a field.
 */
module DataCodec {
  import opened Bytes
  import opened Swap

  /** The bytes of a value, most significant first, given its memory image. */
  function MostSignificantFirst(littleHost: bool, image: seq<byte>): (number: seq<byte>)
    requires |image| % 2 == 0
    ensures |number| == |image|
  {
    if littleHost then Arranged(EndianLittleLittle, image) else image
  }

  /** Registers holding a byte string, first byte in the high-order half of the first. */
  function Words(b: seq<byte>): (w: seq<word>)
    requires |b| % 2 == 0
    ensures |w| == |b| / 2
    ensures forall i :: 0 <= i < |w| ==> w[i] == Join(b[2 * i], b[2 * i + 1])
  {
    seq(|b| / 2, i requires 0 <= i < |b| / 2 => Join(b[2 * i], b[2 * i + 1]))
  }

  /** The byte string that registers hold. */
  function Octets(w: seq<word>): (b: seq<byte>)
    ensures |b| == 2 * |w|
    ensures forall k :: 0 <= k < |b| ==> b[k] == if k % 2 == 0 then High(w[k / 2]) else Low(w[k / 2])
  {
    seq(2 * |w|, k requires 0 <= k < 2 * |w| => if k % 2 == 0 then High(w[k / 2]) else Low(w[k / 2]))
  }

  /** What a device of byte and word order `e` keeps for a number. */
  function Encode(e: Endian, number: seq<byte>): (w: seq<word>)
    requires |number| % 2 == 0
    ensures |w| == |number| / 2
  {
    Words(Arranged(e, number))
  }

  function Decode(e: Endian, w: seq<word>): (number: seq<byte>)
    ensures |number| == 2 * |w| && |number| % 2 == 0
  {
    Arranged(e, Octets(w))
  }

  lemma OctetsOfWords(b: seq<byte>)
    requires |b| % 2 == 0
    ensures Octets(Words(b)) == b
  {
    hide Join, High, Low;
    forall k | 0 <= k < |b|
      ensures Octets(Words(b))[k] == b[k]
    {
      var i := k / 2;
      JoinParts(0, b[2 * i], b[2 * i + 1]);
    }
  }

  lemma WordsOfOctets(w: seq<word>)
    ensures Words(Octets(w)) == w
  {
    hide Join, High, Low;
    forall i | 0 <= i < |w|
      ensures Words(Octets(w))[i] == w[i]
    {
      JoinParts(w[i], 0, 0);
    }
  }

  /** No order loses a number, and none leaves a register image unused. */
  lemma CodecRoundTrip(e: Endian, number: seq<byte>, w: seq<word>)
    requires |number| % 2 == 0
    ensures Decode(e, Encode(e, number)) == number
    ensures Encode(e, Decode(e, w)) == w
  {
    hide Words, Octets, Place;
    DecodeEncoded(e, number);
    EncodeDecoded(e, w);
  }

  lemma DecodeEncoded(e: Endian, number: seq<byte>)
    requires |number| % 2 == 0
    ensures Decode(e, Encode(e, number)) == number
  {
    hide Place;
    OctetsOfWords(Arranged(e, number));
    SwapAlgebra(e, number);
  }

  lemma EncodeDecoded(e: Endian, w: seq<word>)
    ensures Encode(e, Decode(e, w)) == w
  {
    hide Place;
    SwapAlgebra(e, Octets(w));
    WordsOfOctets(w);
  }

  /** The word of the number that register `i` of `n` gets. */
  function WordPlace(e: Endian, n: nat, i: nat): (p: nat)
    requires i < n
    ensures p < n
  {
    if e.LittleWords() then n - 1 - i else i
  }

  lemma BothBytesPlace(e: Endian, n: nat, i: nat)
    requires i < n
    ensures var p := 2 * WordPlace(e, n, i);
            if e.LittleBytes() then Place(e, 2 * n, 2 * i) == p + 1 && Place(e, 2 * n, 2 * i + 1) == p
            else Place(e, 2 * n, 2 * i) == p && Place(e, 2 * n, 2 * i + 1) == p + 1
  {
  }

  /**
   The four orders on a number of any size: words from the first or from the
   last, the bytes of each in order or exchanged.
   */
  lemma OrdersByName(e: Endian, number: seq<byte>, i: nat)
    requires |number| % 2 == 0 && i < |number| / 2
    ensures var n := |number|;
            Encode(e, number)[i] == match e
                                    case EndianBigBig => Join(number[2 * i], number[2 * i + 1])
                                    case EndianBigLittle => Join(number[n - 2 - 2 * i], number[n - 1 - 2 * i])
                                    case EndianLittleBig => Join(number[2 * i + 1], number[2 * i])
                                    case EndianLittleLittle => Join(number[n - 1 - 2 * i], number[n - 2 - 2 * i])
  {
    hide Join, Place;
    BothBytesPlace(e, |number| / 2, i);
  }

  /** For a four-byte number abcd that is what the names abcd, cdab, badc and dcba say. */
  lemma FourByteOrders(e: Endian, abcd: seq<byte>)
    requires |abcd| == 4
    ensures var (a, b, c, d) := (abcd[0], abcd[1], abcd[2], abcd[3]);
            Encode(e, abcd) == match e
                               case EndianBigBig => [Join(a, b), Join(c, d)]
                               case EndianBigLittle => [Join(c, d), Join(a, b)]
                               case EndianLittleBig => [Join(b, a), Join(d, c)]
                               case EndianLittleLittle => [Join(d, c), Join(b, a)]
  {
    hide Join;
  }

  /** A 16-bit value in the host's memory, and back: `ntoh` and `hton` of a register. */
  function HostWord(littleHost: bool, b0: byte, b1: byte): word {
    if littleHost then Join(b1, b0) else Join(b0, b1)
  }

  function NetToHost(littleHost: bool, w: word): word {
    if littleHost then Swapped(w) else w
  }

  lemma HostWordOrder(littleHost: bool, b0: byte, b1: byte)
    ensures NetToHost(littleHost, HostWord(littleHost, b0, b1)) == Join(b0, b1)
  {
    hide Join, High, Low;
    JoinParts(0, b1, b0);
  }

  /**
   `updateValue` leaves every register in network order. It shows the same
   word as before exactly on a big-endian host or when its two bytes are equal.
   */
  lemma ReadingKeepsRegisterIff(littleHost: bool, w: word)
    ensures NetToHost(littleHost, w) == w <==> !littleHost || High(w) == Low(w)
  {
    hide Join, High, Low;
    JoinParts(w, Low(w), High(w));
  }

  /**
   The registers left behind still show the number read from them exactly on a
   big-endian host or when each had two equal bytes.
   */
  lemma StillShownIff(littleHost: bool, e: Endian, was: seq<word>, now: seq<word>)
    requires |now| == |was| && forall j :: 0 <= j < |was| ==> now[j] == NetToHost(littleHost, was[j])
    ensures now == Encode(e, Decode(e, was))
       <==> !littleHost || forall j :: 0 <= j < |was| ==> High(was[j]) == Low(was[j])
  {
    hide High, Low, NetToHost, Encode, Decode;
    CodecRoundTrip(e, [], was);
    forall j | 0 <= j < |was|
      ensures now[j] == was[j] <==> !littleHost || High(was[j]) == Low(was[j])
    {
      ReadingKeepsRegisterIff(littleHost, was[j]);
    }
  }

  /** First and second byte of a 16-bit value in the host's memory. */
  function HostBytes(littleHost: bool, w: word): (byte, byte) {
    if littleHost then (Low(w), High(w)) else (High(w), Low(w))
  }

  lemma HostBytesOrder(littleHost: bool, w: word)
    ensures HostBytes(littleHost, NetToHost(littleHost, w)) == (High(w), Low(w))
  {
    hide Join, High, Low;
    JoinParts(w, Low(w), High(w));
  }

  // ----- values as integers -----

  /**
   The integer whose memory image this is: the byte of weight 1 comes first on
   a little-endian host and last on a big-endian one.
   */
  function ImageValue(littleHost: bool, image: seq<byte>): nat {
    if image == [] then 0
    else if littleHost then image[0] as int + 256 * ImageValue(true, image[1..])
    else 256 * ImageValue(false, image[..|image| - 1]) + image[|image| - 1] as int
  }

  /** Registers read as digits of base 65536, most significant first. */
  function RegistersValue(w: seq<word>): nat {
    if w == [] then 0 else 0x10000 * RegistersValue(w[..|w| - 1]) + w[|w| - 1] as int
  }

  /** The registers of a device of order `e`, put in the order abcd. */
  function Abcd(e: Endian, w: seq<word>): (r: seq<word>)
    ensures |r| == |w|
  {
    match e
    case EndianBigBig => w
    case EndianBigLittle => seq(|w|, i requires 0 <= i < |w| => w[|w| - 1 - i])
    case EndianLittleBig => seq(|w|, i requires 0 <= i < |w| => Swapped(w[i]))
    case EndianLittleLittle => seq(|w|, i requires 0 <= i < |w| => Swapped(w[|w| - 1 - i]))
  }

  /** The integer that registers of order `e` show. */
  function ShownValue(e: Endian, w: seq<word>): nat {
    RegistersValue(Abcd(e, w))
  }

  lemma JoinValue(hi: byte, lo: byte)
    ensures Join(hi, lo) as int == 256 * (hi as int) + lo as int
  {
    hide Join, High, Low;
    JoinParts(0, hi, lo);
    WordNumber(Join(hi, lo));
  }

  /** A little-endian image has the value of its reversal on a big-endian host. */
  lemma {:induction false} LittleIsReversed(image: seq<byte>, reversed: seq<byte>)
    requires |reversed| == |image| && forall k :: 0 <= k < |image| ==> reversed[k] == image[|image| - 1 - k]
    ensures ImageValue(true, image) == ImageValue(false, reversed)
  {
    if image == [] {
    } else {
      LittleIsReversed(image[1..], reversed[..|image| - 1]);
    }
  }

  /** The number of a value is its big-endian image. */
  lemma NumberValue(littleHost: bool, image: seq<byte>)
    requires |image| % 2 == 0
    ensures ImageValue(false, MostSignificantFirst(littleHost, image)) == ImageValue(littleHost, image)
  {
    hide ImageValue;
    if littleHost {
      LittleIsReversed(image, MostSignificantFirst(true, image));
    }
  }

  lemma LastWord(b: seq<byte>)
    requires |b| % 2 == 0 && b != []
    ensures Words(b) == Words(b[..|b| - 2]) + [Join(b[|b| - 2], b[|b| - 1])]
  {
    hide Join;
  }

  lemma {:induction false} WordsValue(b: seq<byte>)
    requires |b| % 2 == 0
    ensures RegistersValue(Words(b)) == ImageValue(false, b)
  {
    hide Join, Words;
    if b == [] {
      assert Words(b) == [];
    } else {
      var n := |b|;
      var front, last := Words(b[..n - 2]), Join(b[n - 2], b[n - 1]);
      WordsValue(b[..n - 2]);
      LastWord(b);
      JoinValue(b[n - 2], b[n - 1]);
      TwoDigits(b);
      assert (front + [last])[..|front|] == front;
    }
  }

  lemma TwoDigits(b: seq<byte>)
    requires |b| >= 2
    ensures var n := |b|;
            ImageValue(false, b)
            == 0x10000 * ImageValue(false, b[..n - 2]) + 256 * (b[n - 2] as int) + b[n - 1] as int
  {
    var n := |b|;
    assert b[..n - 1][..n - 2] == b[..n - 2];
    assert ImageValue(false, b[..n - 1]) == 256 * ImageValue(false, b[..n - 2]) + b[n - 2] as int;
  }

  lemma AbcdEncoded(e: Endian, number: seq<byte>)
    requires |number| % 2 == 0
    ensures Abcd(e, Encode(e, number)) == Words(number)
  {
    hide Join, Words, Abcd, Encode;
    forall i | 0 <= i < |number| / 2
      ensures Abcd(e, Encode(e, number))[i] == Words(number)[i]
    {
      AbcdEncodedAt(e, number, i);
    }
  }

  lemma AbcdEncodedAt(e: Endian, number: seq<byte>, i: nat)
    requires |number| % 2 == 0 && i < |number| / 2
    ensures Abcd(e, Encode(e, number))[i] == Join(number[2 * i], number[2 * i + 1])
  {
    hide Join, Swapped, Encode;
    var m := |number| / 2;
    assert |number| == 2 * m;
    OrdersByName(e, number, i);
    OrdersByName(e, number, m - 1 - i);
    SwappedJoin(number[2 * i], number[2 * i + 1]);
  }

  lemma SwappedJoin(hi: byte, lo: byte)
    ensures Swapped(Join(lo, hi)) == Join(hi, lo)
  {
    hide Join, High, Low;
    JoinParts(0, lo, hi);
  }

  /** Encoded registers show the integer, whatever the host, the order and the size. */
  lemma EncodedValue(e: Endian, littleHost: bool, image: seq<byte>)
    requires |image| % 2 == 0
    ensures ShownValue(e, Encode(e, MostSignificantFirst(littleHost, image))) == ImageValue(littleHost, image)
  {
    hide Encode, Abcd, MostSignificantFirst, RegistersValue, ImageValue;
    var number := MostSignificantFirst(littleHost, image);
    AbcdEncoded(e, number);
    WordsValue(number);
    NumberValue(littleHost, image);
  }

  /** A value decoded from registers is the integer they showed. */
  lemma DecodedValue(e: Endian, littleHost: bool, image: seq<byte>, w: seq<word>)
    requires |image| % 2 == 0 && MostSignificantFirst(littleHost, image) == Decode(e, w)
    ensures ImageValue(littleHost, image) == ShownValue(e, w)
  {
    hide Encode, Decode, MostSignificantFirst, ImageValue, ShownValue;
    CodecRoundTrip(e, [], w);
    EncodedValue(e, littleHost, image);
  }

  lemma BytesEqual(a: byte, b: byte)
    requires a as int == b as int
    ensures a == b
  {
  }

  lemma {:induction false} ValueDeterminesBytes(a: seq<byte>, b: seq<byte>)
    requires |a| == |b| && ImageValue(false, a) == ImageValue(false, b)
    ensures a == b
  {
    if a == [] {
    } else {
      var n := |a| - 1;
      LastDigit(ImageValue(false, a[..n]), a[n] as int, ImageValue(false, b[..n]), b[n] as int);
      BytesEqual(a[n], b[n]);
      ValueDeterminesBytes(a[..n], b[..n]);
      assert a == a[..n] + [a[n]] && b == b[..n] + [b[n]];
    }
  }

  lemma LastDigit(x: int, d: int, y: int, e: int)
    requires 0 <= d < 256 && 0 <= e < 256 && 256 * x + d == 256 * y + e
    ensures x == y && d == e
  {
  }

  /** The same integer in the same order is the same registers on both kinds of host, and only then. */
  lemma SameValueIffSameRegisters(e: Endian, h1: bool, image1: seq<byte>, h2: bool, image2: seq<byte>)
    requires |image1| == |image2| && |image1| % 2 == 0
    ensures ImageValue(h1, image1) == ImageValue(h2, image2)
       <==> Encode(e, MostSignificantFirst(h1, image1)) == Encode(e, MostSignificantFirst(h2, image2))
  {
    hide Encode, MostSignificantFirst, ImageValue, ShownValue;
    NumberValue(h1, image1);
    NumberValue(h2, image2);
    EncodedValue(e, h1, image1);
    EncodedValue(e, h2, image2);
    if ImageValue(h1, image1) == ImageValue(h2, image2) {
      ValueDeterminesBytes(MostSignificantFirst(h1, image1), MostSignificantFirst(h2, image2));
    }
  }

  lemma FourByteLittle(v: seq<byte>)
    requires |v| == 4
    ensures ImageValue(true, v)
         == v[0] as int + 0x100 * (v[1] as int) + 0x10000 * (v[2] as int) + 0x1000000 * (v[3] as int)
  {
    assert v[1..][1..] == v[2..] && v[2..][1..] == v[3..] && v[3..][1..] == [];
    assert ImageValue(true, v[3..]) == v[3] as int;
    assert ImageValue(true, v[2..]) == v[2] as int + 0x100 * (v[3] as int);
    assert ImageValue(true, v[1..]) == v[1] as int + 0x100 * (v[2] as int) + 0x10000 * (v[3] as int);
  }

  lemma FourByteBig(v: seq<byte>)
    requires |v| == 4
    ensures ImageValue(false, v)
         == 0x1000000 * (v[0] as int) + 0x10000 * (v[1] as int) + 0x100 * (v[2] as int) + v[3] as int
  {
    assert v[..3][..2] == v[..2] && v[..2][..1] == v[..1] && v[..1][..0] == [];
    assert ImageValue(false, v[..1]) == v[0] as int;
    assert ImageValue(false, v[..2]) == 0x100 * (v[0] as int) + v[1] as int;
    assert ImageValue(false, v[..3]) == 0x10000 * (v[0] as int) + 0x100 * (v[1] as int) + v[2] as int;
  }

  /** 0x12345678 in order abcd is 0x1234, 0x5678, from either host's image. */
  lemma AbcdExample(littleHost: bool)
    ensures var image := if littleHost then [0x78, 0x56, 0x34, 0x12] else [0x12, 0x34, 0x56, 0x78];
            && ImageValue(littleHost, image) == 0x12345678
            && Encode(EndianBigBig, MostSignificantFirst(littleHost, image)) == [0x1234, 0x5678]
  {
    hide ImageValue, MostSignificantFirst, Encode, Join;
    JoinExample();
    var image: seq<byte> := if littleHost then [0x78, 0x56, 0x34, 0x12] else [0x12, 0x34, 0x56, 0x78];
    FourByteLittle([0x78, 0x56, 0x34, 0x12]);
    FourByteBig([0x12, 0x34, 0x56, 0x78]);
    HostExample(littleHost);
    FourByteOrders(EndianBigBig, [0x12, 0x34, 0x56, 0x78]);
  }

  lemma JoinExample()
    ensures Join(0x12, 0x34) == 0x1234 && Join(0x56, 0x78) == 0x5678
  {
  }

  lemma HostExample(littleHost: bool)
    ensures var image := if littleHost then [0x78, 0x56, 0x34, 0x12] else [0x12, 0x34, 0x56, 0x78];
            MostSignificantFirst(littleHost, image) == [0x12, 0x34, 0x56, 0x78]
  {
  }

  class Data {
    const size: nat
    const littleHost: bool
    var image: seq<byte>
    var endian: Endian
    const registers: array<word>

    ghost predicate Valid()
      reads this
    {
      size >= 2 && size % 2 == 0 && |image| == size && registers.Length == size / 2
    }

    /** The value itself, independent of any byte order. */
    function Number(): (number: seq<byte>)
      requires Valid()
      reads this
      ensures |number| == size
    {
      MostSignificantFirst(littleHost, image)
    }

    /** The registers, read in the order of the object, are the integer that the image is on this host. */
    ghost predicate ShowsValue()
      reads this, registers
    {
      ShownValue(endian, registers[..]) == ImageValue(littleHost, image)
    }

    constructor (littleHost: bool, image: seq<byte>, endian: Endian)
      requires |image| >= 2 && |image| % 2 == 0
      ensures Valid() && fresh(registers)
      ensures this.littleHost == littleHost && this.image == image && this.endian == endian
      ensures registers[..] == Encode(endian, Number()) && ShowsValue()
    {
      this.size, this.littleHost := |image|, littleHost;
      this.image, this.endian := image, endian;
      this.registers := new word[|image| / 2];
      new;
      UpdateRegisters();
    }

    /** `operator=` from a plain value. */
    method Assign(image: seq<byte>)
      requires Valid() && |image| == size
      modifies this`image, registers
      ensures Valid() && this.image == image
      ensures registers[..] == Encode(endian, Number()) && ShowsValue()
    {
      this.image := image;
      UpdateRegisters();
    }

    method SetEndianness(endian: Endian)
      requires Valid()
      modifies this`endian, registers
      ensures Valid() && this.endian == endian
      ensures registers[..] == Encode(endian, Number()) && ShowsValue()
    {
      this.endian := endian;
      UpdateRegisters();
    }

    /** `Data::swap`, in place on a local copy of the value. */
    method SwapFor(v: array<byte>)
      requires v.Length % 2 == 0 && v != registers as object
      modifies v
      ensures v[..] == Arranged(endian, old(v[..]))
    {
      match endian
      case EndianBigBig =>
      case EndianBigLittle => SwapWords(v);
      case EndianLittleBig => SwapBytesInWords(v);
      case EndianLittleLittle => SwapBytes(v);
    }

    /** `memcpy` of the arranged bytes over the registers. */
    method CopyToRegisters(v: array<byte>)
      requires Valid() && v.Length == size
      modifies registers
      ensures forall j :: 0 <= j < size / 2 ==> registers[j] == HostWord(littleHost, v[2 * j], v[2 * j + 1])
    {
      var i := 0;
      while i < size / 2
        invariant 0 <= i <= size / 2
        invariant forall j :: 0 <= j < i ==> registers[j] == HostWord(littleHost, v[2 * j], v[2 * j + 1])
      {
        registers[i] := HostWord(littleHost, v[2 * i], v[2 * i + 1]);
        i := i + 1;
      }
    }

    /** `memcpy` of the registers over a local copy of the value. */
    method CopyFromRegisters(v: array<byte>)
      requires Valid() && v.Length == size
      modifies v
      ensures forall j :: 0 <= j < size / 2 ==> (v[2 * j], v[2 * j + 1]) == HostBytes(littleHost, registers[j])
    {
      hide HostBytes;
      var i := 0;
      while i < size / 2
        invariant 0 <= i <= size / 2
        invariant forall j :: 0 <= j < i ==> (v[2 * j], v[2 * j + 1]) == HostBytes(littleHost, registers[j])
      {
        var (b0, b1) := HostBytes(littleHost, registers[i]);
        v[2 * i], v[2 * i + 1] := b0, b1;
        i := i + 1;
      }
    }

    /** `ntoh` (or `hton`, the same exchange) of every register. */
    method ExchangeRegisters()
      requires Valid()
      modifies registers
      ensures forall j :: 0 <= j < size / 2 ==> registers[j] == NetToHost(littleHost, old(registers[j]))
    {
      var i := 0;
      while i < size / 2
        invariant 0 <= i <= size / 2
        invariant forall j :: 0 <= j < i ==> registers[j] == NetToHost(littleHost, old(registers[j]))
        invariant forall j :: i <= j < size / 2 ==> registers[j] == old(registers[j])
      {
        registers[i] := NetToHost(littleHost, registers[i]);
        i := i + 1;
      }
    }

    /** The registers show the number in the chosen order, on either kind of host. */
    method UpdateRegisters()
      requires Valid()
      modifies registers
      ensures registers[..] == Encode(endian, Number()) && ShowsValue()
    {
      hide Join, High, Low, HostWord, NetToHost, ShownValue, ImageValue;
      var v := new byte[size](k requires 0 <= k < |image| reads this => image[k]);
      assert v[..] == image;
      if littleHost {
        SwapBytes(v);
      }
      SwapFor(v);
      ghost var arranged := v[..];
      CopyToRegisters(v);
      ExchangeRegisters();
      forall j | 0 <= j < size / 2
        ensures registers[j] == Join(arranged[2 * j], arranged[2 * j + 1])
      {
        HostWordOrder(littleHost, arranged[2 * j], arranged[2 * j + 1]);
      }
      EncodedValue(endian, littleHost, image);
    }

    /**
     The value becomes the number the registers showed. They end up in network
     order, and so still show it only on a big-endian host, or when the two
     bytes of every register were equal.
     */
    method UpdateValue()
      requires Valid()
      modifies this`image, registers
      ensures Valid()
      ensures Number() == Decode(endian, old(registers[..]))
      ensures ImageValue(littleHost, image) == ShownValue(endian, old(registers[..]))
      ensures forall j :: 0 <= j < size / 2 ==> registers[j] == NetToHost(littleHost, old(registers[j]))
      ensures registers[..] == Encode(endian, Number())
         <==> !littleHost || forall j :: 0 <= j < size / 2 ==> High(old(registers[j])) == Low(old(registers[j]))
    {
      hide High, Low, NetToHost, Encode, Decode;
      ghost var shown := registers[..];
      ExchangeRegisters();
      StillShownIff(littleHost, endian, shown, registers[..]);
      LoadValue(shown);
      DecodedValue(endian, littleHost, image, shown);
    }

    /** The part of `updateValue` behind the loop: registers in network order are copied and rearranged. */
    method LoadValue(ghost shown: seq<word>)
      requires Valid() && |shown| == size / 2
      requires forall j :: 0 <= j < size / 2 ==> registers[j] == NetToHost(littleHost, shown[j])
      modifies this`image
      ensures Valid() && Number() == Decode(endian, shown)
    {
      hide Join, High, Low, HostBytes, NetToHost;
      var v := new byte[size];
      CopyFromRegisters(v);
      forall k | 0 <= k < size
        ensures v[k] == Octets(shown)[k]
      {
        HostBytesOrder(littleHost, shown[k / 2]);
        assert (v[2 * (k / 2)], v[2 * (k / 2) + 1]) == HostBytes(littleHost, registers[k / 2]);
      }
      assert v[..] == Octets(shown);
      SwapFor(v);
      ghost var number := v[..];
      if littleHost {
        SwapBytes(v);
        SwapAlgebra(EndianLittleLittle, number);
      }
      image := v[..];
    }
  }
}
