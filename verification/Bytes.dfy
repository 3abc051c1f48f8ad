/** Bytes, 16-bit words and bit strings, as they travel on a MODBUS link. */
module Bytes {

  type byte = bv8
  type word = bv16

  /** The word whose high-order byte is `hi`. */
  function Join(hi: byte, lo: byte): word {
    (hi as word << 8) | lo as word
  }

  function High(w: word): byte {
    (w >> 8) as byte
  }

  function Low(w: word): byte {
    (w & 0xFF) as byte
  }

  function Number(w: word): nat {
    w as int
  }

  function Swapped(w: word): word {
    Join(Low(w), High(w))
  }

  lemma JoinParts(w: word, hi: byte, lo: byte)
    ensures Join(High(w), Low(w)) == w
    ensures High(Join(hi, lo)) == hi && Low(Join(hi, lo)) == lo
    ensures Swapped(Swapped(w)) == w
  {
  }

  lemma SplitNumber(w: word)
    ensures w as int == 256 * ((w >> 8) as byte as int) + (w & 0xFF) as byte as int
  {
  }

  lemma Halves(w: word)
    ensures High(w) == (w >> 8) as byte && Low(w) == (w & 0xFF) as byte
  {
  }

  lemma WordNumber(w: word)
    ensures w as int == 256 * (High(w) as int) + Low(w) as int
  {
    hide High, Low;
    SplitNumber(w);
    Halves(w);
  }

  lemma NextByte(b: byte)
    ensures (b + 1) as int == if b as int == 255 then 0 else b as int + 1
    ensures b as int == 255 <==> b == 0xFF
  {
  }

  lemma NextHalves(w: word)
    ensures Low(w + 1) == Low(w) + 1
    ensures High(w + 1) == if Low(w) == 0xFF then High(w) + 1 else High(w)
  {
  }

  lemma NextLow(w: word)
    ensures Low(w + 1) as int == if Low(w) as int == 255 then 0 else Low(w) as int + 1
  {
    hide Low;
    NextHalves(w);
    NextByte(Low(w));
  }

  lemma NextHigh(w: word)
    ensures High(w + 1) as int ==
            if Low(w) as int != 255 then High(w) as int
            else if High(w) as int == 255 then 0 else High(w) as int + 1
  {
    hide Low, High;
    NextHalves(w);
    NextByte(Low(w));
    NextByte(High(w));
  }

  lemma CounterArithmetic(hi: int, lo: int, hi': int, lo': int)
    requires 0 <= hi <= 255 && 0 <= lo <= 255
    requires lo' == if lo == 255 then 0 else lo + 1
    requires hi' == if lo != 255 then hi else if hi == 255 then 0 else hi + 1
    ensures 256 * hi' + lo' == (256 * hi + lo + 1) % 0x10000
  {
  }

  /** A 16-bit counter wraps round. */
  lemma NextWord(w: word)
    ensures Number(w + 1) == (Number(w) + 1) % 0x10000
  {
    hide High, Low;
    WordNumber(w);
    WordNumber(w + 1);
    NextLow(w);
    NextHigh(w);
    CounterArithmetic(High(w) as int, Low(w) as int, High(w + 1) as int, Low(w + 1) as int);
  }

  /** The eight bits of a byte in transmission order, least significant first. */
  function ByteBits(b: byte): (bits: seq<bool>)
    ensures |bits| == 8
  {
    [b & 0x01 != 0, b & 0x02 != 0, b & 0x04 != 0, b & 0x08 != 0,
     b & 0x10 != 0, b & 0x20 != 0, b & 0x40 != 0, b & 0x80 != 0]
  }

  /** All bits of a byte string in transmission order. */
  function Bits(s: seq<byte>): (bits: seq<bool>)
    ensures |bits| == 8 * |s|
  {
    if s == [] then [] else Bits(s[..|s| - 1]) + ByteBits(s[|s| - 1])
  }

  /** Number of one bits. */
  function Ones(bits: seq<bool>): nat {
    if bits == [] then 0
    else Ones(bits[..|bits| - 1]) + if bits[|bits| - 1] then 1 else 0
  }

  function Xor(a: seq<byte>, b: seq<byte>): (r: seq<byte>)
    requires |a| == |b|
    ensures |r| == |a|
    ensures forall k :: 0 <= k < |a| ==> r[k] == a[k] ^ b[k]
  {
    seq(|a|, k requires 0 <= k < |a| => a[k] ^ b[k])
  }

  function Zeros(n: nat): (z: seq<bool>)
    ensures |z| == n
  {
    seq(n, _ => false)
  }
}
