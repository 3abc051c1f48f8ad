/**
 Arrays of values in a block of holding registers: the templates
 `readRegisters` and `writeRegisters` of include/modbuspp/slave.h.
 */
module DataArrays {
  import opened Bytes
  import opened Swap
  import opened DataCodec
  import opened Mirror
  import opened Slaves

  /** The registers of several numbers, one after the other. */
  function Flat(e: Endian, numbers: seq<seq<byte>>): seq<word>
    requires forall i :: 0 <= i < |numbers| ==> |numbers[i]| % 2 == 0
  {
    if numbers == [] then []
    else Flat(e, numbers[..|numbers| - 1]) + Encode(e, numbers[|numbers| - 1])
  }

  ghost predicate AllOfSize(numbers: seq<seq<byte>>, m: nat) {
    forall i :: 0 <= i < |numbers| ==> |numbers[i]| == 2 * m
  }

  /** The length of `n` groups of `m` registers: their product, without the multiplication. */
  function Groups(n: nat, m: nat): nat {
    if n == 0 then 0 else Groups(n - 1, m) + m
  }

  lemma {:induction false} GroupsIsProduct(n: nat, m: nat)
    ensures Groups(n, m) == n * m
  {
    if n == 0 {
    } else {
      GroupsIsProduct(n - 1, m);
      assert n * m == (n - 1) * m + m;
    }
  }

  lemma {:induction false} GroupFits(i: nat, n: nat, m: nat)
    requires i < n
    ensures Groups(i, m) + m <= Groups(n, m)
  {
    if i == n - 1 {
    } else {
      GroupFits(i, n - 1, m);
    }
  }

  /** The `i`-th group of registers. */
  function Group(flat: seq<word>, i: nat, m: nat): (g: seq<word>)
    requires Groups(i, m) + m <= |flat|
    ensures |g| == m
  {
    flat[Groups(i, m)..Groups(i, m) + m]
  }

  lemma {:induction false} FlatLength(e: Endian, numbers: seq<seq<byte>>, m: nat)
    requires AllOfSize(numbers, m)
    ensures |Flat(e, numbers)| == Groups(|numbers|, m)
  {
    hide Encode;
    if numbers == [] {
    } else {
      FlatLength(e, numbers[..|numbers| - 1], m);
    }
  }

  lemma GroupOfSum(x: seq<word>, y: seq<word>, i: nat, m: nat)
    requires Groups(i, m) + m <= |x|
    ensures Group(x + y, i, m) == Group(x, i, m)
  {
  }

  lemma LastGroup(x: seq<word>, y: seq<word>, n: nat, m: nat)
    requires |x| == Groups(n, m) && |y| == m
    ensures Group(x + y, n, m) == y
  {
  }

  lemma FlatLast(e: Endian, numbers: seq<seq<byte>>, m: nat)
    requires AllOfSize(numbers, m) && numbers != []
    ensures var n := |numbers| - 1;
            && Flat(e, numbers) == Flat(e, numbers[..n]) + Encode(e, numbers[n])
            && |Encode(e, numbers[n])| == m
  {
  }

  /** The `i`-th group of registers is the `i`-th number. */
  lemma {:induction false} FlatGroup(e: Endian, numbers: seq<seq<byte>>, m: nat, i: nat)
    requires AllOfSize(numbers, m) && i < |numbers|
    ensures |Flat(e, numbers)| == Groups(|numbers|, m)
    ensures Groups(i, m) + m <= Groups(|numbers|, m)
    ensures Group(Flat(e, numbers), i, m) == Encode(e, numbers[i])
  {
    hide Encode, Flat, Group, Groups;
    var n := |numbers| - 1;
    var init := numbers[..n];
    FlatLast(e, numbers, m);
    FlatLength(e, numbers, m);
    FlatLength(e, init, m);
    GroupFits(i, |numbers|, m);
    if i < n {
      GroupFits(i, n, m);
      FlatGroup(e, init, m, i);
      GroupOfSum(Flat(e, init), Encode(e, numbers[n]), i, m);
    } else {
      LastGroup(Flat(e, init), Encode(e, numbers[n]), n, m);
    }
  }

  /** Read in its order, the `i`-th group shows the integer of the `i`-th value on its host. */
  lemma FlatShowsValue(e: Endian, numbers: seq<seq<byte>>, m: nat, i: nat, littleHost: bool, image: seq<byte>)
    requires AllOfSize(numbers, m) && i < |numbers|
    requires |image| == 2 * m && numbers[i] == MostSignificantFirst(littleHost, image)
    ensures Groups(i, m) + m <= |Flat(e, numbers)|
    ensures ShownValue(e, Group(Flat(e, numbers), i, m)) == ImageValue(littleHost, image)
  {
    hide Encode, ShownValue, ImageValue, MostSignificantFirst, Group, Flat;
    FlatGroup(e, numbers, m, i);
    EncodedValue(e, littleHost, image);
  }

  /**
   Written and read back at the same address, on a closed device, values come
   back unchanged when they fit; when they do not, fewer registers than asked
   for are read.
   */
  lemma ArrayRoundTrip(t: Table<word>, a: int, e: Endian, numbers: seq<seq<byte>>, m: nat, i: nat)
    requires AllOfSize(numbers, m) && i < |numbers| && t.InBlock(a)
    ensures var n := Groups(|numbers|, m);
            var (t1, rc1) := WriteStep(t, a, Flat(e, numbers), Offline);
            var (t2, rc2) := ReadStep(t1, a, n, Offline);
            && rc1 == rc2
            && if t.Holds(a, n) then
                 && rc2 == n && t2.Holds(a, n) && Groups(i, m) + m <= n
                 && Decode(e, Group(t2.Values(a, n), i, m)) == numbers[i]
               else rc2 < n
  {
    hide Encode, Decode, Group;
    var n := Groups(|numbers|, m);
    FlatGroup(e, numbers, m, i);
    CodecRoundTrip(e, numbers[i], []);
    if t.Holds(a, n) {
      var flat := Flat(e, numbers);
      assert flat[..n] == flat;
      assert WriteStep(t, a, flat, Offline).0.Values(a, n) == flat;
    }
  }

  // ----- the templates -----

  /** Objects of one type in a C++ array: all different, all of one size. */
  ghost predicate Separate(ds: seq<Data>, m: nat)
    reads ds
  {
    && (forall i :: 0 <= i < |ds| ==> ds[i].Valid() && ds[i].size == 2 * m)
    && (forall i, j :: 0 <= i < j < |ds| ==> ds[i] != ds[j] && ds[i].registers != ds[j].registers)
  }

  function Registers(ds: seq<Data>): set<array<word>> {
    set d | d in ds :: d.registers
  }

  function Numbers(ds: seq<Data>): (numbers: seq<seq<byte>>)
    requires forall d :: d in ds ==> d.Valid()
    reads ds
    ensures |numbers| == |ds|
  {
    seq(|ds|, i requires 0 <= i < |ds| && ds[i].Valid() reads ds => ds[i].Number())
  }

  /** The loop of `writeRegisters`: registers brought up to date and appended. */
  method Collect(src: seq<Data>, m: nat, e: Endian) returns (buf: seq<word>)
    requires Separate(src, m) && forall d :: d in src ==> d.endian == e
    modifies Registers(src)
    ensures Separate(src, m) && Numbers(src) == old(Numbers(src)) && buf == Flat(e, Numbers(src))
  {
    hide Encode, MostSignificantFirst, ShownValue, ImageValue;
    buf := [];
    ghost var numbers := Numbers(src);
    var i := 0;
    while i < |src|
      invariant 0 <= i <= |src| && Separate(src, m) && Numbers(src) == numbers
      invariant buf == Flat(e, numbers[..i])
    {
      src[i].UpdateRegisters();
      buf := buf + src[i].registers[..];
      assert numbers[..i + 1][..i] == numbers[..i];
      i := i + 1;
    }
    assert numbers[..i] == numbers;
  }

  /** `writeRegisters (addr, Data *, nb)`: current values, whatever their registers showed before. */
  method WriteData(s: BufferedSlave, addr: int, src: seq<Data>, m: nat, e: Endian, link: Link) returns (rc: int)
    requires s.registers.Valid() && Separate(src, m)
    requires s.registers.tab == null || s.registers.tab !in Registers(src)
    requires forall d :: d in src ==> d.endian == e && d as object != s.registers
    modifies s.registers`far, s.registers`dirty, s.registers.tab, Registers(src)
    ensures s.registers.Valid() && Separate(src, m)
    ensures (s.registers.View(), rc)
         == WriteStep(old(s.registers.View()), s.PduAddress(addr), Flat(e, old(Numbers(src))), link)
  {
    hide Flat, WriteStep;
    ghost var view := s.registers.View();
    var buf := Collect(src, m, e);
    assert s.registers.View() == view;
    rc := s.WriteRegisters(addr, buf, link);
  }

  /** `writeInputRegisters (addr, Data *, nb)`: likewise, into the block only. */
  method WriteInputData(s: BufferedSlave, addr: int, src: seq<Data>, m: nat, e: Endian) returns (rc: int)
    requires s.inputRegisters.Valid() && Separate(src, m)
    requires s.inputRegisters.tab == null || s.inputRegisters.tab !in Registers(src)
    requires forall d :: d in src ==> d.endian == e && d as object != s.inputRegisters
    modifies s.inputRegisters`far, s.inputRegisters`dirty, s.inputRegisters.tab, Registers(src)
    ensures s.inputRegisters.Valid() && Separate(src, m)
    ensures (s.inputRegisters.View(), rc)
         == WriteLocalStep(old(s.inputRegisters.View()), s.PduAddress(addr), Flat(e, old(Numbers(src))))
  {
    hide Flat, WriteLocalStep;
    ghost var view := s.inputRegisters.View();
    var buf := Collect(src, m, e);
    assert s.inputRegisters.View() == view;
    rc := s.WriteInputRegisters(addr, buf);
  }

  /** A value is the number that some registers encode. */
  ghost predicate Shows(d: Data, g: seq<word>)
    reads d
  {
    d.Valid() && d.Number() == Decode(d.endian, g)
  }

  /** The first `k` values are the numbers their groups of registers encode. */
  ghost predicate Decoded(ds: seq<Data>, values: seq<word>, m: nat, k: nat)
    reads ds
  {
    && k <= |ds| && Groups(|ds|, m) <= |values|
    && forall i :: 0 <= i < k ==> Groups(i, m) + m <= |values| && Shows(ds[i], Group(values, i, m))
  }

  /** `readRegisters (addr, Data *, nb)`: all values, or none when fewer registers came back. */
  method ReadData(s: BufferedSlave, addr: int, dest: seq<Data>, m: nat, link: Link) returns (rc: int)
    requires s.registers.Valid() && Separate(dest, m)
    requires s.registers.tab == null || s.registers.tab !in Registers(dest)
    requires forall d :: d in dest ==> d as object != s.registers
    modifies s.registers`dirty, s.registers.tab, dest`image, Registers(dest)
    ensures s.registers.Valid() && Separate(dest, m)
    ensures (s.registers.View(), rc)
         == ReadStep(old(s.registers.View()), s.PduAddress(addr), Groups(|dest|, m), link)
    ensures rc == Groups(|dest|, m) ==> s.registers.View().Holds(s.PduAddress(addr), rc)
    ensures rc == Groups(|dest|, m) ==>
              Decoded(dest, s.registers.View().Values(s.PduAddress(addr), rc), m, |dest|)
    ensures rc != Groups(|dest|, m) ==>
              forall d :: d in dest ==> d.image == old(d.image) && d.registers[..] == old(d.registers[..])
  {
    hide Shows, ReadStep, Group;
    var n := Groups(|dest|, m);
    var buf := new word[n](_ => 0);
    rc := s.ReadRegisters(addr, buf, n, link);
    if rc == n {
      assert buf[..n] == buf[..];
      FillAll(dest, buf, m);
    }
  }

  /** The outer loop of `readRegisters`. */
  method FillAll(dest: seq<Data>, buf: array<word>, m: nat)
    requires Separate(dest, m) && buf !in Registers(dest) && buf.Length == Groups(|dest|, m)
    modifies dest`image, Registers(dest)
    ensures Separate(dest, m) && Decoded(dest, buf[..], m, |dest|) && buf[..] == old(buf[..])
  {
    hide Decoded, Group;
    var i, n := 0, 0;
    NoneDecoded(dest, buf[..], m);
    while i < |dest|
      invariant 0 <= i <= |dest| && n == Groups(i, m) && Separate(dest, m)
      invariant Decoded(dest, buf[..], m, i) && buf[..] == old(buf[..])
    {
      FillNext(dest, buf, m, i, n);
      i, n := i + 1, n + m;
    }
  }

  lemma NoneDecoded(dest: seq<Data>, values: seq<word>, m: nat)
    requires Groups(|dest|, m) <= |values|
    ensures Decoded(dest, values, m, 0)
  {
  }

  /** One round of it. */
  method FillNext(dest: seq<Data>, buf: array<word>, m: nat, i: nat, n: nat)
    requires Separate(dest, m) && buf !in Registers(dest) && buf.Length == Groups(|dest|, m)
    requires i < |dest| && n == Groups(i, m) && Decoded(dest, buf[..], m, i)
    modifies {dest[i]}`image, dest[i].registers
    ensures Separate(dest, m) && Decoded(dest, buf[..], m, i + 1) && buf[..] == old(buf[..])
  {
    hide Shows, Groups;
    GroupFits(i, |dest|, m);
    ghost var values := buf[..];
    assert Group(values, i, m) == values[n..n + m];
    assert forall j :: 0 <= j < i ==> dest[j] != dest[i] && dest[j].registers != dest[i].registers;
    FillOne(dest[i], buf, n);
    assert buf[..] == values && buf[n..n + m] == values[n..n + m];
  }

  /** One value's registers from the buffer, and the value from its registers. */
  method FillOne(d: Data, buf: array<word>, from: nat)
    requires d.Valid() && buf != d.registers && from + d.registers.Length <= buf.Length
    modifies d`image, d.registers
    ensures d.Valid() && Shows(d, buf[from..from + d.registers.Length])
  {
    hide Decode, MostSignificantFirst;
    CopyRegisters(d, buf, from);
    d.UpdateValue();
  }

  /** The inner loop: one value's registers from the buffer. */
  method CopyRegisters(d: Data, buf: array<word>, from: nat)
    requires d.Valid() && buf != d.registers && from + d.registers.Length <= buf.Length
    modifies d.registers
    ensures d.registers[..] == buf[from..from + d.registers.Length]
  {
    var k, n := 0, from;
    while k < d.registers.Length
      invariant 0 <= k <= d.registers.Length && n == from + k
      invariant d.registers[..k] == buf[from..n]
    {
      d.registers[k] := buf[n];
      k, n := k + 1, n + 1;
    }
  }

  // ----- both, on objects -----

  /** `ArrayRoundTrip` for all groups at once, with addresses outside the block. */
  lemma AllGroupsReadBack(t: Table<word>, a: int, e: Endian, numbers: seq<seq<byte>>, m: nat)
    requires AllOfSize(numbers, m)
    ensures var n := Groups(|numbers|, m);
            var t1 := WriteStep(t, a, Flat(e, numbers), Offline).0;
            var (t2, rc) := ReadStep(t1, a, n, Offline);
            if t.Holds(a, n) then rc == n && t2.Holds(a, n) && AllEncoded(e, t2.Values(a, n), m, numbers)
            else rc < n
  {
    hide Encode, Decode, Group, Flat;
    FlatLength(e, numbers, m);
    var n := Groups(|numbers|, m);
    if t.Holds(a, n) {
      var values := ReadStep(WriteStep(t, a, Flat(e, numbers), Offline).0, a, n, Offline).0.Values(a, n);
      forall i | 0 <= i < |numbers|
        ensures Groups(i, m) + m <= n && Decode(e, Group(values, i, m)) == numbers[i]
      {
        GroupFits(i, |numbers|, m);
        ArrayRoundTrip(t, a, e, numbers, m, i);
      }
    }
  }

  /** Each group of the registers decodes to its number. */
  ghost predicate AllEncoded(e: Endian, values: seq<word>, m: nat, numbers: seq<seq<byte>>) {
    forall i :: 0 <= i < |numbers| ==> Groups(i, m) + m <= |values| && Decode(e, Group(values, i, m)) == numbers[i]
  }

  lemma DecodedNumbers(ds: seq<Data>, e: Endian, values: seq<word>, m: nat, numbers: seq<seq<byte>>)
    requires Separate(ds, m) && |ds| == |numbers| && forall d :: d in ds ==> d.endian == e
    requires Decoded(ds, values, m, |ds|) && AllEncoded(e, values, m, numbers)
    ensures Numbers(ds) == numbers
  {
    hide Decode, Group;
    forall i | 0 <= i < |ds|
      ensures ds[i].Valid() && ds[i].Number() == numbers[i]
    {
      assert Shows(ds[i], Group(values, i, m));
    }
  }

  /**
   Values written from objects and read back into objects of the same order,
   on a closed device: when they fit, every object read into ends up with the
   number of the one written from, and n times the register count is returned;
   when they do not, less is returned and no object read into changes. The two
   arrays may share objects.
   */
  method WriteThenRead(s: BufferedSlave, addr: int, src: seq<Data>, dest: seq<Data>, m: nat, e: Endian)
    returns (rc: int)
    requires s.registers.Valid() && Separate(src, m) && Separate(dest, m) && |dest| == |src|
    requires s.registers.tab == null || s.registers.tab !in Registers(src) + Registers(dest)
    requires forall d :: d in src + dest ==> d.endian == e && d as object != s.registers
    modifies s.registers`far, s.registers`dirty, s.registers.tab
    modifies dest`image, Registers(src), Registers(dest)
    ensures s.registers.Valid() && Separate(dest, m)
    ensures if old(s.registers.View().Holds(s.PduAddress(addr), |src| * m)) then
              rc == |src| * m && Numbers(dest) == old(Numbers(src))
            else
              rc < |src| * m && Numbers(dest) == old(Numbers(dest))
    ensures !old(s.registers.View().Holds(s.PduAddress(addr), |src| * m)) ==>
              forall d :: d in dest && d.registers !in Registers(src) ==> d.registers[..] == old(d.registers[..])
  {
    hide WriteStep, ReadStep, AllEncoded, Decoded, Flat, Groups;
    GroupsIsProduct(|src|, m);
    ghost var a, t, numbers := s.PduAddress(addr), s.registers.View(), Numbers(src);
    AllGroupsReadBack(t, a, e, numbers, m);
    var wrote := WriteData(s, addr, src, m, e, Offline);
    rc := ReadData(s, addr, dest, m, Offline);
    if t.Holds(a, |src| * m) {
      DecodedNumbers(dest, e, s.registers.View().Values(a, rc), m, numbers);
    }
  }
}
