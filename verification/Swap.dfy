/** Byte and word orders (include/modbuspp/swap.h), over values of any even size. */
module Swap {
  import opened Bytes

  /** Order of bytes and words in a group of registers, in the names of the source. */
  datatype Endian =
    | EndianBigBig        // abcd
    | EndianBigLittle     // cdab
    | EndianLittleBig     // badc
    | EndianLittleLittle  // dcba
  {
    predicate LittleBytes() {
      EndianLittleBig? || EndianLittleLittle?
    }

    predicate LittleWords() {
      EndianBigLittle? || EndianLittleLittle?
    }

    /** The order that results from applying both. */
    function With(other: Endian): Endian {
      match (LittleBytes() != other.LittleBytes(), LittleWords() != other.LittleWords())
      case (false, false) => EndianBigBig
      case (false, true) => EndianBigLittle
      case (true, false) => EndianLittleBig
      case (true, true) => EndianLittleLittle
    }
  }

  /** The place, in a value of `n` bytes written abcd..., of the byte that position `k` gets. */
  function Place(e: Endian, n: nat, k: nat): (p: nat)
    requires n % 2 == 0 && k < n
    ensures p < n
  {
    match e
    case EndianBigBig => k
    case EndianBigLittle => if k % 2 == 0 then n - 2 - k else n - k
    case EndianLittleBig => if k % 2 == 0 then k + 1 else k - 1
    case EndianLittleLittle => n - 1 - k
  }

  function Arranged(e: Endian, v: seq<byte>): (r: seq<byte>)
    requires |v| % 2 == 0
    ensures |r| == |v|
    ensures forall k :: 0 <= k < |v| ==> r[k] == v[Place(e, |v|, k)]
  {
    seq(|v|, k requires 0 <= k < |v| => v[Place(e, |v|, k)])
  }

  lemma PlaceTwice(d: Endian, e: Endian, n: nat, k: nat)
    requires n % 2 == 0 && k < n
    ensures Place(d, n, Place(e, n, k)) == Place(d.With(e), n, k)
  {
  }

  /** Applying two orders is applying their combination, whichever comes first. */
  lemma ArrangedTwice(d: Endian, e: Endian, v: seq<byte>)
    requires |v| % 2 == 0
    ensures Arranged(e, Arranged(d, v)) == Arranged(d.With(e), v)
    ensures Arranged(e, Arranged(d, v)) == Arranged(d, Arranged(e, v))
  {
    forall k | 0 <= k < |v|
      ensures Arranged(e, Arranged(d, v))[k] == v[Place(d.With(e), |v|, k)]
      ensures Arranged(d, Arranged(e, v))[k] == v[Place(d.With(e), |v|, k)]
    {
      PlaceTwice(d, e, |v|, k);
      PlaceTwice(e, d, |v|, k);
    }
  }

  /** Every order undoes itself; reversing all is reversing words after bytes in words. */
  lemma SwapAlgebra(e: Endian, v: seq<byte>)
    requires |v| % 2 == 0
    ensures Arranged(e, Arranged(e, v)) == v
    ensures Arranged(EndianLittleLittle, v) == Arranged(EndianBigLittle, Arranged(EndianLittleBig, v))
    ensures Arranged(EndianLittleLittle, v) == Arranged(EndianLittleBig, Arranged(EndianBigLittle, v))
  {
    ArrangedTwice(e, e, v);
    ArrangedTwice(EndianLittleBig, EndianBigLittle, v);
  }

  /** swapBytes: exchange bytes from both ends. */
  method SwapBytes(p: array<byte>)
    requires p.Length % 2 == 0
    modifies p
    ensures p[..] == Arranged(EndianLittleLittle, old(p[..]))
  {
    var n, i := p.Length, 0;
    while i < n / 2
      invariant 0 <= i <= n / 2
      invariant forall k :: 0 <= k < i ==> p[k] == old(p[n - 1 - k]) && p[n - 1 - k] == old(p[k])
      invariant forall k :: i <= k < n - i ==> p[k] == old(p[k])
    {
      p[i], p[n - 1 - i] := p[n - 1 - i], p[i];
      i := i + 1;
    }
  }

  lemma PlaceOfWord(m: nat, w: nat)
    requires w < m
    ensures Place(EndianBigLittle, 2 * m, 2 * w) == 2 * (m - 1 - w)
    ensures Place(EndianBigLittle, 2 * m, 2 * w + 1) == 2 * (m - 1 - w) + 1
    ensures Place(EndianLittleBig, 2 * m, 2 * w) == 2 * w + 1
    ensures Place(EndianLittleBig, 2 * m, 2 * w + 1) == 2 * w
  {
  }

  /** The bytes of `s` outside lo..hi are those of `goal`, the others those of `was`. */
  ghost predicate DoneOutside(s: seq<byte>, was: seq<byte>, goal: seq<byte>, lo: int, hi: int) {
    |s| == |was| == |goal| &&
    forall k {:trigger s[k]} :: 0 <= k < |s| ==> s[k] == if lo <= k < hi then was[k] else goal[k]
  }

  /** `std::swap` of the `i`-th 16-bit word from the left with the `i`-th from the right. */
  method ExchangeWords(p: array<byte>, i: nat, ghost was: seq<byte>)
    requires p.Length % 2 == 0 && |was| == p.Length && i < p.Length / 4
    requires DoneOutside(p[..], was, Arranged(EndianBigLittle, was), 2 * i, p.Length - 2 * i)
    modifies p
    ensures DoneOutside(p[..], was, Arranged(EndianBigLittle, was), 2 * i + 2, p.Length - 2 * i - 2)
  {
    hide Place;
    var j := p.Length / 2 - 1 - i;
    ghost var goal := Arranged(EndianBigLittle, was);
    PlaceOfWord(p.Length / 2, i);
    PlaceOfWord(p.Length / 2, j);
    assert goal[2 * i] == p[2 * j] && goal[2 * i + 1] == p[2 * j + 1];
    assert goal[2 * j] == p[2 * i] && goal[2 * j + 1] == p[2 * i + 1];
    p[2 * i], p[2 * i + 1], p[2 * j], p[2 * j + 1] := p[2 * j], p[2 * j + 1], p[2 * i], p[2 * i + 1];
  }

  /** swapWords: exchange 16-bit words from both ends. */
  method SwapWords(p: array<byte>)
    requires p.Length % 2 == 0
    modifies p
    ensures p[..] == Arranged(EndianBigLittle, old(p[..]))
  {
    hide Place;
    var n, i := p.Length, 0;
    ghost var was := p[..];
    ghost var goal := Arranged(EndianBigLittle, was);
    while i < n / 4
      invariant 0 <= i <= n / 4
      invariant DoneOutside(p[..], was, goal, 2 * i, n - 2 * i)
    {
      ExchangeWords(p, i, was);
      i := i + 1;
    }
    if 2 * i < n - 2 * i {
      PlaceOfWord(n / 2, i);
    }
  }

  /** swapBytesInWords: exchange the two bytes of each word. */
  method SwapBytesInWords(p: array<byte>)
    requires p.Length % 2 == 0
    modifies p
    ensures p[..] == Arranged(EndianLittleBig, old(p[..]))
  {
    hide Place;
    var n, i := p.Length, 0;
    ghost var was := p[..];
    ghost var goal := Arranged(EndianLittleBig, was);
    while i < n / 2
      invariant 0 <= i <= n / 2
      invariant forall k {:trigger p[k]} :: 0 <= k < 2 * i ==> p[k] == goal[k]
      invariant forall k {:trigger p[k]} :: 2 * i <= k < n ==> p[k] == was[k]
    {
      PlaceOfWord(n / 2, i);
      p[2 * i], p[2 * i + 1] := p[2 * i + 1], p[2 * i];
      i := i + 1;
    }
  }
}
