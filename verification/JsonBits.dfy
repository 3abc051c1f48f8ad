/**
 Initial coil and discrete-input values from a parsed configuration block
 (`getBitValues` and `writeBits` of src/bufferedslave.cpp).
 */
module JsonBits {
  import opened Mirror
  import opened Slaves

  /**
   A JSON value once its text has been converted: a string holding a number,
   a string holding none, true or false, a number, or anything else.
   */
  datatype BitValue = Octet(ul: nat) | BadText | Flag(b: bool) | Number(i: int) | Other

  /** The values, or the exception of the source. */
  datatype Result = Bits(data: seq<bool>) | Invalid

  predicate Valid(v: BitValue) {
    match v
    case Octet(ul) => ul <= 255
    case BadText => false
    case Flag(_) => true
    case Number(i) => i == 0 || i == 1
    case Other => false
  }

  /** The eight bits of an octet, least significant first. */
  function OctetBits(n: nat, count: nat): (bits: seq<bool>)
    ensures |bits| == count
    decreases count
  {
    if count == 0 then [] else [n % 2 == 1] + OctetBits(n / 2, count - 1)
  }

  function Expand(v: BitValue): seq<bool>
    requires Valid(v)
  {
    match v
    case Octet(ul) => OctetBits(ul, 8)
    case Flag(b) => [b]
    case Number(i) => [i == 1]
  }

  predicate AllValid(vs: seq<BitValue>) {
    forall i :: 0 <= i < |vs| ==> Valid(vs[i])
  }

  /** All bits the values stand for. */
  function Expansion(vs: seq<BitValue>): seq<bool>
    requires AllValid(vs)
  {
    if vs == [] then [] else Expansion(vs[..|vs| - 1]) + Expand(vs[|vs| - 1])
  }

  function Prefix(s: seq<bool>, n: nat): seq<bool> {
    if n < |s| then s[..n] else s
  }

  lemma {:induction false} ExpansionPrefix(vs: seq<BitValue>, c: nat)
    requires AllValid(vs) && c <= |vs|
    ensures AllValid(vs[..c]) && Expansion(vs[..c]) <= Expansion(vs)
  {
    hide Expand;
    if c < |vs| {
      var init := vs[..|vs| - 1];
      ExpansionPrefix(init, c);
      assert init[..c] == vs[..c];
    } else {
      assert vs[..c] == vs;
    }
  }

  /** Bit `i` of a byte, as `byte & (1 << i)` tests it. */
  predicate Test(n: nat, i: nat)
    decreases i
  {
    if i == 0 then n % 2 == 1 else Test(n / 2, i - 1)
  }

  lemma {:induction false} OctetBitsAt(n: nat, count: nat, i: nat)
    requires i < count
    ensures OctetBits(n, count)[i] == Test(n, i)
    decreases count
  {
    if i == 0 {
    } else {
      OctetBitsAt(n / 2, count - 1, i - 1);
    }
  }

  /** The values before `c` are valid, do not suffice, and the one at `c` is not valid. */
  ghost predicate FailsAt(vs: seq<BitValue>, n: int, c: nat) {
    c < |vs| && AllValid(vs[..c]) && |Expansion(vs[..c])| < n && !Valid(vs[c])
  }

  /** The values before `c` are valid and are all there are, or suffice. */
  ghost predicate StopsAt(vs: seq<BitValue>, n: int, c: nat) {
    c <= |vs| && AllValid(vs[..c]) && (c == |vs| || |Expansion(vs[..c])| >= n)
  }

  /**
   `getBitValues`: the first `nmemb` bits of the expansion. Values behind the
   last one needed are not looked at, so an invalid one there does no harm;
   `stop` says where the loop ended.
   */
  method GetBitValues(nmemb: int, values: seq<BitValue>) returns (r: Result, ghost stop: nat)
    ensures nmemb > 0 ==> if r.Invalid? then FailsAt(values, nmemb, stop)
                          else StopsAt(values, nmemb, stop) && r.data == Prefix(Expansion(values[..stop]), nmemb)
    ensures nmemb > 0 && r.Bits? ==> stop <= |values| && Spells(values[..stop], nmemb, r.data)
    ensures nmemb > 0 && AllValid(values) ==> r == Bits(Prefix(Expansion(values), nmemb))
    ensures nmemb <= 0 ==> r == if values == [] then Bits([]) else FirstOnly(values[0])
  {
    hide Expand, OctetBits, Valid, Spells, StandsAt, Offset, FirstOnly;
    var data, left, k := [], nmemb, 0;
    while k < |values|
      invariant 0 <= k <= |values| && AllValid(values[..k])
      invariant nmemb > 0 ==> data == Expansion(values[..k]) && left == nmemb - |data| > 0
      invariant nmemb <= 0 ==> k == 0 && data == [] && left == nmemb
    {
      if !Valid(values[k]) {
        FirstOnlyExpands(values[0]);
        return Invalid, k;
      }
      ExpansionNext(values, k);
      var bits;
      if values[k].Octet? {
        var m := if left < 8 then left else 8;
        bits := TestBits(values[k].ul, if m < 0 then 0 else m);
      } else {
        bits := Expand(values[k]);
      }
      ghost var before := data;
      data, left := data + bits, left - |bits|;
      if nmemb > 0 {
        PrefixGrows(before, Expand(values[k]), bits, nmemb);
      }
      if left <= 0 {
        if AllValid(values) {
          ExpansionPrefix(values, k + 1);
        }
        if nmemb > 0 {
          PrefixSpells(values[..k + 1], nmemb);
        } else {
          FirstOnlyExpands(values[0]);
        }
        return Bits(data), k + 1;
      }
      k := k + 1;
    }
    assert values[..k] == values;
    if nmemb > 0 {
      PrefixSpells(values, nmemb);
    }
    return Bits(data), k;
  }

  /** When no bits are wanted the loop still looks at the first value, and takes it unless it is an octet. */
  function FirstOnly(v: BitValue): Result {
    match v
    case Octet(ul) => if ul > 255 then Invalid else Bits([])
    case Flag(b) => Bits([b])
    case Number(0) => Bits([false])
    case Number(1) => Bits([true])
    case _ => Invalid
  }

  lemma FirstOnlyExpands(v: BitValue)
    ensures FirstOnly(v) == if !Valid(v) then Invalid else if v.Octet? then Bits([]) else Bits(Expand(v))
  {
  }

  // ----- the expansion, value by value -----

  /** Where the bits of value `c` start: eight places for every octet before it, one for every other value. */
  function Offset(vs: seq<BitValue>, c: nat): nat
    requires c <= |vs|
  {
    if c == 0 then 0 else Offset(vs, c - 1) + if vs[c - 1].Octet? then 8 else 1
  }

  /** The binary digits of an octet, the one of weight 1 first. */
  function Digits(n: nat): (bits: seq<bool>)
    ensures |bits| == 8
  {
    [n % 2 == 1, n / 2 % 2 == 1, n / 4 % 2 == 1, n / 8 % 2 == 1,
     n / 16 % 2 == 1, n / 32 % 2 == 1, n / 64 % 2 == 1, n / 128 % 2 == 1]
  }

  /** `data` has what the value stands for from place `at` on, as far as it reaches. */
  ghost predicate StandsAt(v: BitValue, at: nat, data: seq<bool>) {
    match v
    case Octet(ul) => forall j {:trigger Digits(ul)[j]} :: 0 <= j < 8 && at + j < |data| ==>
                        data[at + j] == Digits(ul)[j]
    case Flag(b) => at < |data| ==> data[at] == b
    case Number(i) => at < |data| ==> data[at] == (i != 0)
    case _ => false
  }

  /** A text is a number up to 255, a number 0 or 1, a flag anything; nothing else is accepted. */
  lemma ValidIff(v: BitValue)
    ensures Valid(v) <==> match v
                          case Octet(ul) => ul < 256
                          case Flag(_) => true
                          case Number(i) => i in {0, 1}
                          case _ => false
  {
  }

  lemma FourHalvings(n: nat)
    ensures n / 2 / 2 == n / 4 && n / 4 / 2 == n / 8 && n / 8 / 2 == n / 16
  {
  }

  lemma FourMoreHalvings(n: nat)
    ensures n / 16 / 2 == n / 32 && n / 16 / 4 == n / 64 && n / 16 / 8 == n / 128
  {
  }

  lemma OctetBitsNext(n: nat, count: nat)
    requires count > 0
    ensures OctetBits(n, count) == [n % 2 == 1] + OctetBits(n / 2, count - 1)
  {
  }

  lemma FourBits(n: nat, count: nat)
    requires count >= 4
    ensures OctetBits(n, count)
         == [n % 2 == 1, n / 2 % 2 == 1, n / 4 % 2 == 1, n / 8 % 2 == 1] + OctetBits(n / 16, count - 4)
  {
    hide OctetBits;
    FourHalvings(n);
    OctetBitsNext(n, count);
    OctetBitsNext(n / 2, count - 1);
    OctetBitsNext(n / 4, count - 2);
    OctetBitsNext(n / 8, count - 3);
  }

  lemma NoBits(n: nat)
    ensures OctetBits(n, 0) == []
  {
  }

  lemma OctetBitsAreDigits(n: nat)
    ensures OctetBits(n, 8) == Digits(n)
  {
    hide OctetBits;
    FourBits(n, 8);
    var m := n / 16;
    FourBits(m, 4);
    FourMoreHalvings(n);
    NoBits(m / 16);
  }

  lemma ExpandStands(v: BitValue, at: nat, before: seq<bool>)
    requires Valid(v) && |before| == at
    ensures StandsAt(v, at, before + Expand(v)) && |Expand(v)| == if v.Octet? then 8 else 1
  {
    hide OctetBits, Digits;
    if v.Octet? {
      OctetBitsAreDigits(v.ul);
    }
  }

  lemma StandsInLonger(v: BitValue, at: nat, data: seq<bool>, more: seq<bool>)
    requires StandsAt(v, at, data) && at + (if v.Octet? then 8 else 1) <= |data|
    ensures StandsAt(v, at, data + more)
  {
  }

  lemma StandsInPrefix(v: BitValue, at: nat, data: seq<bool>, n: nat)
    requires StandsAt(v, at, data)
    ensures StandsAt(v, at, Prefix(data, n))
  {
  }

  lemma {:induction false} OffsetsGrow(vs: seq<BitValue>, c: nat, d: nat)
    requires c < d <= |vs|
    ensures Offset(vs, c) + (if vs[c].Octet? then 8 else 1) <= Offset(vs, d)
  {
    if c + 1 == d {
    } else {
      OffsetsGrow(vs, c, d - 1);
    }
  }

  lemma {:induction false} OffsetOfPrefix(vs: seq<BitValue>, n: nat, c: nat)
    requires c <= n <= |vs|
    ensures Offset(vs[..n], c) == Offset(vs, c)
  {
    if c == 0 {
    } else {
      OffsetOfPrefix(vs, n, c - 1);
    }
  }

  /** Every value stands at its offset in the expansion, which ends where the next one would start. */
  lemma {:induction false} ExpansionStands(vs: seq<BitValue>, c: nat)
    requires AllValid(vs)
    ensures |Expansion(vs)| == Offset(vs, |vs|)
    ensures c < |vs| ==> StandsAt(vs[c], Offset(vs, c), Expansion(vs))
  {
    hide Expand, StandsAt, Valid;
    if vs == [] {
    } else {
      var n := |vs| - 1;
      var init := vs[..n];
      ExpansionStands(init, c);
      OffsetOfPrefix(vs, n, n);
      ExpandStands(vs[n], Offset(vs, n), Expansion(init));
      if c < n {
        OffsetOfPrefix(vs, n, c);
        OffsetsGrow(vs, c, n);
        StandsInLonger(vs[c], Offset(vs, c), Expansion(init), Expand(vs[n]));
      }
    }
  }

  /**
   `data` is the first `n` bits of what `values` stand for: so long, and with
   every value at its place.
   */
  ghost predicate Spells(values: seq<BitValue>, n: nat, data: seq<bool>) {
    && |data| == (if n < Offset(values, |values|) then n else Offset(values, |values|))
    && forall c :: 0 <= c < |values| ==> StandsAt(values[c], Offset(values, c), data)
  }

  lemma PrefixSpells(values: seq<BitValue>, n: nat)
    requires AllValid(values)
    ensures Spells(values, n, Prefix(Expansion(values), n))
  {
    hide StandsAt, Valid;
    ExpansionStands(values, 0);
    forall c | 0 <= c < |values|
      ensures StandsAt(values[c], Offset(values, c), Prefix(Expansion(values), n))
    {
      ExpansionStands(values, c);
      StandsInPrefix(values[c], Offset(values, c), Expansion(values), n);
    }
  }

  lemma ExpansionNext(vs: seq<BitValue>, k: nat)
    requires k < |vs| && AllValid(vs[..k]) && Valid(vs[k])
    ensures AllValid(vs[..k + 1]) && Expansion(vs[..k + 1]) == Expansion(vs[..k]) + Expand(vs[k])
    ensures |Expand(vs[k])| == if vs[k].Octet? then 8 else 1
    ensures vs[k].Octet? ==> Expand(vs[k]) == OctetBits(vs[k].ul, 8)
  {
    hide OctetBits;
    assert vs[..k + 1][..k] == vs[..k];
  }

  /** Taking as many of the new bits as are still wanted takes a prefix of the whole. */
  lemma PrefixGrows(before: seq<bool>, all: seq<bool>, bits: seq<bool>, n: nat)
    requires |before| < n && bits == Prefix(all, n - |before|)
    ensures before + bits == Prefix(before + all, n)
    ensures |before + bits| >= n || bits == all
  {
  }

  /** The inner loop, over the bits of one octet. */
  method TestBits(n: nat, m: nat) returns (bits: seq<bool>)
    requires m <= 8
    ensures bits == OctetBits(n, 8)[..m]
  {
    hide OctetBits;
    bits := [];
    var i := 0;
    while i < m
      invariant 0 <= i <= m && bits == OctetBits(n, 8)[..i]
    {
      OctetBitsAt(n, 8, i);
      bits := bits + [Test(n, i)];
      i := i + 1;
    }
  }

  /** `writeBits`: the bits stored in the table's block, clamped to it. */
  method WriteBits(s: BufferedSlave, kind: Kind, addr: int, nmemb: int, values: seq<BitValue>, link: Link)
    returns (rc: int, r: Result, ghost stop: nat)
    requires s.coils.Valid() && s.discreteInputs.Valid()
    requires s.coils != s.discreteInputs && (s.coils.tab == null || s.coils.tab != s.discreteInputs.tab)
    modifies s.coils`far, s.coils`dirty, s.coils.tab
    modifies s.discreteInputs`far, s.discreteInputs`dirty, s.discreteInputs.tab
    ensures s.coils.Valid() && s.discreteInputs.Valid()
    ensures values == [] || nmemb <= 0 || r.Invalid? ==>
              rc == 0 && s.coils.View() == old(s.coils.View())
              && s.discreteInputs.View() == old(s.discreteInputs.View())
    ensures values != [] && nmemb > 0 && r.Bits? && kind.Coil? ==>
              (s.coils.View(), rc) == WriteStep(old(s.coils.View()), s.PduAddress(addr), r.data, link)
              && s.discreteInputs.View() == old(s.discreteInputs.View())
    ensures values != [] && nmemb > 0 && r.Bits? && !kind.Coil? ==>
              (s.discreteInputs.View(), rc)
              == WriteLocalStep(old(s.discreteInputs.View()), s.PduAddress(addr), r.data)
              && s.coils.View() == old(s.coils.View())
    ensures values == [] || nmemb <= 0 ==> r == Bits([])
    ensures nmemb > 0 ==> if r.Invalid? then FailsAt(values, nmemb, stop)
                          else StopsAt(values, nmemb, stop) && r.data == Prefix(Expansion(values[..stop]), nmemb)
    ensures nmemb > 0 && r.Bits? ==> stop <= |values| && Spells(values[..stop], nmemb, r.data)
    ensures nmemb > 0 && AllValid(values) ==> r == Bits(Prefix(Expansion(values), nmemb))
  {
    hide WriteStep;
    rc, r, stop := 0, Bits([]), 0;
    if values != [] && nmemb > 0 {
      r, stop := GetBitValues(nmemb, values);
      if r.Bits? {
        SomeBits(values[..stop]);
        if |r.data| > 0 {
          if kind.Coil? {
            rc := s.WriteCoils(addr, r.data, link);
          } else {
            rc := s.WriteDiscreteInputs(addr, r.data);
          }
        }
      }
    }
  }

  lemma SomeBits(values: seq<BitValue>)
    requires AllValid(values)
    ensures values != [] ==> |Expansion(values)| > 0
  {
  }
}
