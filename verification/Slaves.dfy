/**
 `BufferedSlave` (src/bufferedslave.cpp): four tables changed in place. The
 device, and the real slave behind it, take part through a `Link` given to
 every call.
 */
module Slaves {
  import opened Bytes
  import opened Mirror

  /**
   One table of `modbus_mapping_t` (`tab_*`, `nb_*`, `start_*`) and the real
   slave's table behind it. An empty table has no array.
   */
  class Block<T> {
    var tab: array?<T>
    var nb: nat
    var start: int
    var far: seq<T>
    ghost var dirty: set<int>

    ghost predicate Valid()
      reads this
    {
      if tab == null then nb == 0 else tab.Length == nb
    }

    ghost function View(): Table<T>
      requires Valid()
      reads this, tab
    {
      Table(if tab == null then [] else tab[..], start, far, dirty)
    }

    ghost function Tab(): set<object>
      reads this
    {
      if tab == null then {} else {tab}
    }

    constructor (far: seq<T>)
      ensures tab == null && Valid() && View() == Table([], 0, far, {})
    {
      this.tab, this.nb, this.start, this.far, this.dirty := null, 0, 0, far, {};
    }

    /** `Slave::read*` into the block: the range read, or -1 and nothing changed. */
    method Fetch(a: int, k: nat, link: Link) returns (rc: int)
      requires Valid() && tab != null && start <= a && a + k <= start + nb
      modifies tab, this`dirty
      ensures Valid() && tab == old(tab)
      ensures var t := old(View());
              if t.Done(a, k, link)
              then rc == k && View() == t.(cells := Blit(t.cells, a - t.start, t.far[a..a + k]),
                                           dirty := t.dirty - Range(a - t.start, k))
              else rc == -1 && View() == t
    {
      if !link.Answers? || a < 0 || a + k > |far| {
        return -1;
      }
      var at := a - start;
      ghost var was := tab[..];
      forall i | 0 <= i < k {
        tab[at + i] := far[a + i];
      }
      dirty := dirty - Range(at, k);
      assert tab[..] == Blit(was, at, far[a..a + k]);
      return k;
    }

    /** `Slave::write*` from the block: the range written, or -1. */
    method Store(a: int, k: nat, link: Link) returns (rc: int)
      requires Valid() && tab != null && start <= a && a + k <= start + nb
      requires !link.Offline?
      modifies this`far, this`dirty
      ensures Valid()
      ensures var t := old(View());
              var v := t.cells[a - t.start..a - t.start + k];
              && View() == t.(far := FarWritten(t.far, a, v, link),
                              dirty := if t.Done(a, k, link) then t.dirty - Range(a - t.start, k)
                                       else t.dirty + Range(a - t.start, k))
              && rc == if t.Done(a, k, link) then k else -1
    {
      var at := a - start;
      var inFar := 0 <= a && a + k <= |far|;
      if inFar && (link.Answers? || link.applied) {
        far := far[..a] + tab[at..at + k] + far[a + k..];
        assert far == Blit(old(far), a, tab[..][at..at + k]);
      }
      assert tab[..][at..at + k] == tab[at..at + k];
      if inFar && link.Answers? {
        dirty := dirty - Range(at, k);
        return k;
      }
      dirty := dirty + Range(at, k);
      return -1;
    }

    /** `memcpy` out of the block; onto itself it changes nothing. */
    method CopyOut(a: int, k: nat, dest: array<T>)
      requires Valid() && View().Holds(a, k) && k <= dest.Length && (dest == tab ==> a == start)
      modifies dest
      ensures Valid() && View() == old(View())
      ensures dest[..k] == View().Values(a, k)
      ensures forall i :: k <= i < dest.Length ==> dest[i] == old(dest[i])
    {
      ghost var cells := tab[..];
      var at := a - start;
      forall i | 0 <= i < k {
        dest[i] := tab[at + i];
      }
      assert tab[..] == cells;
    }

    /** `read*`: into the caller's array, which may be the block itself when the whole of it is read. */
    method Read(a: int, dest: array<T>, n: nat, link: Link) returns (rc: int)
      requires Valid() && n <= dest.Length && (dest == tab ==> a == start)
      modifies this`dirty, tab, dest
      ensures Valid() && tab == old(tab)
      ensures (View(), rc) == ReadStep(old(View()), a, n, link)
      ensures -1 <= rc <= n
      ensures rc >= 0 ==> View().Holds(a, rc) && dest[..rc] == View().Values(a, rc)
      ensures dest != tab ==> forall i :: rc <= i < dest.Length && 0 <= i ==> dest[i] == old(dest[i])
    {
      hide Blit, Range, FarWritten;
      if start <= a < start + nb {
        var offset := a - start;
        var k := if n < nb - offset then n else nb - offset;
        if !link.Offline? {
          rc := Fetch(a, k, link);
          if rc < 0 {
            return rc;
          }
        }
        CopyOut(a, k, dest);
        return k;
      }
      return -1;
    }

    /** `write*`: first into the block, then, when the device is open, to the real slave. */
    method Write(a: int, src: seq<T>, link: Link) returns (rc: int)
      requires Valid()
      modifies this`far, this`dirty, tab
      ensures Valid() && tab == old(tab)
      ensures (View(), rc) == WriteStep(old(View()), a, src, link)
    {
      hide Blit, Range, FarWritten;
      if start <= a < start + nb {
        var offset := a - start;
        var k := if |src| < nb - offset then |src| else nb - offset;
        CopyIn(offset, src[..k]);
        if !link.Offline? {
          assert View().cells[offset..offset + k] == src[..k];
          rc := Store(a, k, link);
          return rc;
        }
        OfflineWritesStayHere(far, a, src[..k]);
        dirty := dirty + Range(offset, k);
        return k;
      }
      return -1;
    }

    /** `memcpy` into the block. */
    method CopyIn(at: nat, v: seq<T>)
      requires Valid() && tab != null && at + |v| <= nb
      modifies tab
      ensures Valid() && View() == old(View()).(cells := Blit(old(View().cells), at, v))
    {
      ghost var was := tab[..];
      forall i | 0 <= i < |v| {
        tab[at + i] := v[i];
      }
      assert tab[..] == Blit(was, at, v);
    }

    /** `writeReadRegisters`: both ranges clamped on their own, the write first. */
    method WriteRead(wa: int, src: seq<T>, ra: int, dest: array<T>, n: nat, link: Link) returns (rc: int)
      requires Valid() && n <= dest.Length && dest != tab
      modifies this`far, this`dirty, tab, dest
      ensures Valid() && tab == old(tab)
      ensures (View(), rc) == WriteReadStep(old(View()), wa, src, ra, n, link)
      ensures -1 <= rc <= n
      ensures rc >= 0 ==> View().Holds(ra, rc) && dest[..rc] == View().Values(ra, rc)
      ensures forall i :: rc <= i < dest.Length && 0 <= i ==> dest[i] == old(dest[i])
    {
      hide Blit, Range, FarWritten;
      if start <= ra < start + nb && start <= wa < start + nb {
        var rat, wat := ra - start, wa - start;
        var r := if n < nb - rat then n else nb - rat;
        var w := if |src| < nb - wat then |src| else nb - wat;
        assert src[..w][..w] == src[..w];
        rc := WriteThenFetch(wa, src[..w], ra, r, link);
        if rc >= 0 {
          CopyOut(ra, rc, dest);
        }
        return rc;
      }
      return -1;
    }

    /** The part of `writeReadRegisters` that changes the block, on ranges already clamped. */
    method WriteThenFetch(wa: int, v: seq<T>, ra: int, r: nat, link: Link) returns (rc: int)
      requires Valid() && tab != null
      requires start <= wa < start + nb && wa + |v| <= start + nb
      requires start <= ra < start + nb && ra + r <= start + nb
      modifies this`far, this`dirty, tab
      ensures Valid() && tab == old(tab)
      ensures (View(), rc) == WriteReadStep(old(View()), wa, v, ra, r, link)
    {
      hide Blit, Range, FarWritten;
      assert v[..|v|] == v;
      CopyIn(wa - start, v);
      if !link.Offline? {
        rc := Exchange(wa, v, ra, r, link);
      } else {
        dirty := dirty + Range(wa - start, |v|);
        rc := r;
      }
    }

    /** `Slave::writeReadRegisters` between the block and the real slave. */
    method Exchange(wa: int, v: seq<T>, ra: int, r: nat, link: Link) returns (rc: int)
      requires Valid() && tab != null && !link.Offline?
      requires start <= wa && wa + |v| <= start + nb && start <= ra && ra + r <= start + nb
      modifies this`far, this`dirty, tab
      ensures Valid() && tab == old(tab)
      ensures var t := old(View());
              var wat, rat := wa - t.start, ra - t.start;
              if t.Done(wa, |v|, link) && t.InFar(ra, r) then
                var far := Blit(t.far, wa, v);
                rc == r && View() == t.(cells := Blit(t.cells, rat, far[ra..ra + r]), far := far,
                                        dirty := t.dirty - Range(wat, |v|) - Range(rat, r))
              else
                rc == -1 && View() == t.(far := if link.Fails? then FarWritten(t.far, wa, v, link) else t.far,
                                         dirty := t.dirty + Range(wat, |v|))
    {
      var wat, rat := wa - start, ra - start;
      var inFar := 0 <= wa && wa + |v| <= |far|;
      if link.Answers? && inFar && 0 <= ra && ra + r <= |far| {
        far := Blit(far, wa, v);
        dirty := dirty - Range(wat, |v|) - Range(rat, r);
        CopyIn(rat, far[ra..ra + r]);
        return r;
      }
      if link.Fails? && link.applied && inFar {
        far := Blit(far, wa, v);
      }
      dirty := dirty + Range(wat, |v|);
      return -1;
    }

    /** `update*BlockFromSlave`. */
    method UpdateFromSlave(link: Link) returns (rc: int)
      requires Valid()
      modifies this`dirty, tab
      ensures Valid() && tab == old(tab)
      ensures (View(), rc) == PullStep(old(View()), link)
    {
      if !link.Offline? && nb > 0 {
        rc := Read(start, tab, nb, link);
        return rc;
      }
      return 0;
    }

    /** `updateSlave*FromBlock`. */
    method UpdateSlave(link: Link) returns (rc: int)
      requires Valid()
      modifies this`far, this`dirty, tab
      ensures Valid() && tab == old(tab)
      ensures (View(), rc) == PushStep(old(View()), link)
    {
      if !link.Offline? && nb > 0 {
        rc := Write(start, tab[..], link);
        return rc;
      }
      return 0;
    }

    /**
     `setCoilBlock` and `setDiscreteInputBlock`. When memory is refused the
     old array is gone but its count stays: the table then is consistent only
     if it was empty.
     */
    method SetBlock(a: int, n: nat, zero: T, memory: bool) returns (rc: int)
      requires Valid()
      modifies this
      ensures memory || n == 0 || n == old(nb) ==>
                Valid() && rc == n && View() == ResizeStep(old(View()), a, n, zero)
      ensures !memory && n != 0 && n != old(nb) ==>
                rc == -1 && tab == null && nb == old(nb) && start == old(start)
                && far == old(far) && dirty == old(dirty)
      ensures Valid() <==> memory || n == 0 || n == old(nb) || old(nb) == 0
      ensures tab == old(tab) || tab == null || fresh(tab)
    {
      ghost var t := View();
      if n == 0 {
        tab := null;
      } else if nb != n {
        if memory {
          var kept := if n < nb then n else nb;
          var block := new T[n](_ => zero);
          forall i | 0 <= i < kept {
            block[i] := tab[i];
          }
          assert block[..] == t.cells[..kept] + seq(n - kept, _ => zero);
          tab := block;
        } else {
          tab := null;
        }
        if tab == null {
          return -1;
        }
      }
      ghost var kept := if n < nb then n else nb;
      dirty := if a == start then dirty + Range(kept, n - kept) else Range(0, n);
      nb := n;
      start := a;
      return n;
    }

    /** The same when memory is to be had. */
    method Resize(a: int, n: nat, zero: T) returns (rc: int)
      requires Valid()
      modifies this
      ensures Valid() && rc == n && View() == ResizeStep(old(View()), a, n, zero)
      ensures start == a
      ensures forall o :: o in Tab() ==> o in old(Tab()) || fresh(o)
    {
      rc := SetBlock(a, n, zero, true);
    }
  }

  datatype Kind = DiscreteInput | Coil | InputRegister | HoldingRegister

  /** The four tables of a slave as values. */
  datatype Tables = Tables(coils: Table<bool>, discreteInputs: Table<bool>,
                           registers: Table<word>, inputRegisters: Table<word>)

  /** What the device does for each table when all are updated. */
  datatype Links = Links(coils: Link, registers: Link, discreteInputs: Link, inputRegisters: Link)

  /** `updateBlockFromSlave()`: table after table, stopping at the first failure. */
  function PullAll(s: Tables, l: Links): (Tables, bool) {
    var (coils, rc1) := PullStep(s.coils, l.coils);
    var s1 := s.(coils := coils);
    if rc1 < 0 then (s1, false) else
      var (registers, rc2) := PullStep(s.registers, l.registers);
      var s2 := s1.(registers := registers);
      if rc2 < 0 then (s2, false) else PullInputs(s2, l)
  }

  function PullInputs(s: Tables, l: Links): (Tables, bool) {
    var (discreteInputs, rc1) := PullStep(s.discreteInputs, l.discreteInputs);
    var s1 := s.(discreteInputs := discreteInputs);
    if rc1 < 0 then (s1, false) else
      var (inputRegisters, rc2) := PullStep(s.inputRegisters, l.inputRegisters);
      (s1.(inputRegisters := inputRegisters), rc2 >= 0)
  }

  /** `updateSlaveFromBlock()`: coils, then holding registers. */
  function PushAll(s: Tables, l: Links): (Tables, bool) {
    var (coils, rc1) := PushStep(s.coils, l.coils);
    var s1 := s.(coils := coils);
    if rc1 < 0 then (s1, false) else
      var (registers, rc2) := PushStep(s.registers, l.registers);
      (s1.(registers := registers), rc2 >= 0)
  }

  class BufferedSlave {
    const pduAddressing: bool
    const coils: Block<bool>
    const discreteInputs: Block<bool>
    const registers: Block<word>
    const inputRegisters: Block<word>

    ghost predicate Valid()
      reads this, coils, discreteInputs, registers, inputRegisters
    {
      && coils.Valid() && discreteInputs.Valid() && registers.Valid() && inputRegisters.Valid()
      && {coils as object} !! {discreteInputs as object} !! {registers as object} !! {inputRegisters as object}
      && coils.Tab() !! discreteInputs.Tab() !! registers.Tab() !! inputRegisters.Tab()
    }

    ghost function View(): Tables
      requires Valid()
      reads this, coils, discreteInputs, registers, inputRegisters
      reads coils.tab, discreteInputs.tab, registers.tab, inputRegisters.tab
    {
      Tables(coils.View(), discreteInputs.View(), registers.View(), inputRegisters.View())
    }

    constructor (pduAddressing: bool, coils: seq<bool>, discreteInputs: seq<bool>,
                 registers: seq<word>, inputRegisters: seq<word>)
      ensures Valid() && this.pduAddressing == pduAddressing
      ensures View() == Tables(Table([], 0, coils, {}), Table([], 0, discreteInputs, {}),
                               Table([], 0, registers, {}), Table([], 0, inputRegisters, {}))
    {
      this.pduAddressing := pduAddressing;
      this.coils := new Block(coils);
      this.discreteInputs := new Block(discreteInputs);
      this.registers := new Block(registers);
      this.inputRegisters := new Block(inputRegisters);
    }

    function PduAddress(dataAddr: int): int {
      dataAddr - if pduAddressing then 0 else 1
    }

    function DataAddress(pduAddr: int): int {
      pduAddr + if pduAddressing then 0 else 1
    }

    /** The two kinds of address count from each other, data addresses from 1 unless they are PDU addresses. */
    lemma AddressesAreInverse(addr: int)
      ensures DataAddress(PduAddress(addr)) == addr && PduAddress(DataAddress(addr)) == addr
      ensures if pduAddressing then PduAddress(0) == 0 else PduAddress(1) == 0
      ensures PduAddress(addr + 1) == PduAddress(addr) + 1
    {
    }

    method ReadCoils(addr: int, dest: array<bool>, nb: nat, link: Link) returns (rc: int)
      requires coils.Valid() && nb <= dest.Length && dest != coils.tab
      modifies coils`dirty, coils.tab, dest
      ensures coils.Valid() && coils.tab == old(coils.tab)
      ensures (coils.View(), rc) == ReadStep(old(coils.View()), PduAddress(addr), nb, link)
      ensures rc >= 0 ==> rc <= nb && coils.View().Holds(PduAddress(addr), rc)
      ensures rc >= 0 ==> dest[..rc] == coils.View().Values(PduAddress(addr), rc)
      ensures rc >= 0 ==> Delivers(old(coils.View()), addr - (if pduAddressing then 0 else 1), link, dest[..rc])
      ensures forall i :: rc <= i < dest.Length && 0 <= i ==> dest[i] == old(dest[i])
    {
      hide ReadStep;
      ghost var was := coils.View();
      rc := coils.Read(PduAddress(addr), dest, nb, link);
      if rc >= 0 {
        ReadDelivers(was, PduAddress(addr), nb, link);
      }
    }

    method ReadRegisters(addr: int, dest: array<word>, nb: nat, link: Link) returns (rc: int)
      requires registers.Valid() && nb <= dest.Length && dest != registers.tab
      modifies registers`dirty, registers.tab, dest
      ensures registers.Valid() && registers.tab == old(registers.tab)
      ensures (registers.View(), rc) == ReadStep(old(registers.View()), PduAddress(addr), nb, link)
      ensures rc >= 0 ==> rc <= nb && registers.View().Holds(PduAddress(addr), rc)
      ensures rc >= 0 ==> dest[..rc] == registers.View().Values(PduAddress(addr), rc)
      ensures rc >= 0 ==> Delivers(old(registers.View()), addr - (if pduAddressing then 0 else 1), link, dest[..rc])
      ensures forall i :: rc <= i < dest.Length && 0 <= i ==> dest[i] == old(dest[i])
    {
      hide ReadStep;
      ghost var was := registers.View();
      rc := registers.Read(PduAddress(addr), dest, nb, link);
      if rc >= 0 {
        ReadDelivers(was, PduAddress(addr), nb, link);
      }
    }

    method WriteCoils(addr: int, src: seq<bool>, link: Link) returns (rc: int)
      requires coils.Valid()
      modifies coils`far, coils`dirty, coils.tab
      ensures coils.Valid() && coils.tab == old(coils.tab)
      ensures (coils.View(), rc) == WriteStep(old(coils.View()), PduAddress(addr), src, link)
      ensures rc >= 0 ==>
                rc <= |src| && Took(coils.View(), addr - (if pduAddressing then 0 else 1), link, src[..rc])
    {
      hide WriteStep;
      ghost var was := coils.View();
      rc := coils.Write(PduAddress(addr), src, link);
      if rc >= 0 {
        WriteTook(was, PduAddress(addr), src, link);
      }
    }

    method WriteRegisters(addr: int, src: seq<word>, link: Link) returns (rc: int)
      requires registers.Valid()
      modifies registers`far, registers`dirty, registers.tab
      ensures registers.Valid() && registers.tab == old(registers.tab)
      ensures (registers.View(), rc) == WriteStep(old(registers.View()), PduAddress(addr), src, link)
      ensures rc >= 0 ==>
                rc <= |src| && Took(registers.View(), addr - (if pduAddressing then 0 else 1), link, src[..rc])
    {
      hide WriteStep;
      ghost var was := registers.View();
      rc := registers.Write(PduAddress(addr), src, link);
      if rc >= 0 {
        WriteTook(was, PduAddress(addr), src, link);
      }
    }

    /** `writeDiscreteInputs`: the block only, even when the device is open. */
    method WriteDiscreteInputs(addr: int, src: seq<bool>) returns (rc: int)
      requires discreteInputs.Valid()
      modifies discreteInputs`far, discreteInputs`dirty, discreteInputs.tab
      ensures discreteInputs.Valid() && discreteInputs.tab == old(discreteInputs.tab)
      ensures (discreteInputs.View(), rc) == WriteLocalStep(old(discreteInputs.View()), PduAddress(addr), src)
      ensures discreteInputs.far == old(discreteInputs.far)
      ensures rc >= 0 ==>
                rc <= |src| && Took(discreteInputs.View(), addr - (if pduAddressing then 0 else 1), Offline, src[..rc])
    {
      hide WriteStep;
      ghost var was := discreteInputs.View();
      WriteLocalReturns(was, PduAddress(addr), src);
      rc := discreteInputs.Write(PduAddress(addr), src, Offline);
      if rc >= 0 {
        WriteTook(was, PduAddress(addr), src, Offline);
      }
    }

    /** `writeInputRegisters`: likewise. */
    method WriteInputRegisters(addr: int, src: seq<word>) returns (rc: int)
      requires inputRegisters.Valid()
      modifies inputRegisters`far, inputRegisters`dirty, inputRegisters.tab
      ensures inputRegisters.Valid() && inputRegisters.tab == old(inputRegisters.tab)
      ensures (inputRegisters.View(), rc) == WriteLocalStep(old(inputRegisters.View()), PduAddress(addr), src)
      ensures inputRegisters.far == old(inputRegisters.far)
      ensures rc >= 0 ==>
                rc <= |src| && Took(inputRegisters.View(), addr - (if pduAddressing then 0 else 1), Offline, src[..rc])
    {
      hide WriteStep;
      ghost var was := inputRegisters.View();
      WriteLocalReturns(was, PduAddress(addr), src);
      rc := inputRegisters.Write(PduAddress(addr), src, Offline);
      if rc >= 0 {
        WriteTook(was, PduAddress(addr), src, Offline);
      }
    }

    method WriteReadRegisters(writeAddr: int, src: seq<word>, readAddr: int, dest: array<word>, nb: nat, link: Link)
      returns (rc: int)
      requires registers.Valid() && nb <= dest.Length && dest != registers.tab
      modifies registers`far, registers`dirty, registers.tab, dest
      ensures registers.Valid() && registers.tab == old(registers.tab)
      ensures (registers.View(), rc)
           == WriteReadStep(old(registers.View()), PduAddress(writeAddr), src, PduAddress(readAddr), nb, link)
      ensures rc >= 0 ==> rc <= nb && registers.View().Holds(PduAddress(readAddr), rc)
      ensures rc >= 0 ==> dest[..rc] == registers.View().Values(PduAddress(readAddr), rc)
      ensures rc >= 0 ==> Delivers(registers.View(), readAddr - (if pduAddressing then 0 else 1), link, dest[..rc])
      ensures rc >= 0 ==>
                var a := writeAddr - (if pduAddressing then 0 else 1);
                old(registers.View().InBlock(a)) &&
                Took(registers.View(), a, link, src[..old(registers.View().Span(a, |src|))])
      ensures forall i :: rc <= i < dest.Length && 0 <= i ==> dest[i] == old(dest[i])
    {
      hide WriteReadStep;
      ghost var was := registers.View();
      rc := registers.WriteRead(PduAddress(writeAddr), src, PduAddress(readAddr), dest, nb, link);
      if rc >= 0 {
        WriteReadDelivers(was, PduAddress(writeAddr), src, PduAddress(readAddr), nb, link);
      }
    }

    /** `updateBlockFromSlave()`. */
    method UpdateBlockFromSlave(l: Links) returns (ok: bool)
      requires Valid()
      modifies coils, discreteInputs, registers, inputRegisters
      modifies coils.tab, discreteInputs.tab, registers.tab, inputRegisters.tab
      ensures Valid() && (View(), ok) == PullAll(old(View()), l)
    {
      hide PullStep;
      var rc := coils.UpdateFromSlave(l.coils);
      if rc < 0 {
        return false;
      }
      rc := registers.UpdateFromSlave(l.registers);
      if rc < 0 {
        return false;
      }
      ok := UpdateInputs(l);
    }

    /** The second half of `updateBlockFromSlave()`. */
    method UpdateInputs(l: Links) returns (ok: bool)
      requires Valid()
      modifies discreteInputs, inputRegisters, discreteInputs.tab, inputRegisters.tab
      ensures Valid() && (View(), ok) == PullInputs(old(View()), l)
    {
      hide PullStep;
      var rc := discreteInputs.UpdateFromSlave(l.discreteInputs);
      if rc < 0 {
        return false;
      }
      rc := inputRegisters.UpdateFromSlave(l.inputRegisters);
      return rc >= 0;
    }

    /** `updateSlaveFromBlock()`. */
    method UpdateSlaveFromBlock(l: Links) returns (ok: bool)
      requires Valid()
      modifies coils, registers, coils.tab, registers.tab
      ensures Valid() && (View(), ok) == PushAll(old(View()), l)
    {
      hide PushStep;
      var rc := coils.UpdateSlave(l.coils);
      if rc < 0 {
        return false;
      }
      rc := registers.UpdateSlave(l.registers);
      return rc >= 0;
    }

    /**
     `setBlock`. A negative address means the first one. Register blocks may
     be created, emptied or shrunk; see `RegisterGrowthIff` for growth.
     */
    method SetBlock(kind: Kind, n: nat, startAddr: int) returns (rc: int)
      requires Valid()
      requires kind.InputRegister? ==> inputRegisters.nb == 0 || n <= inputRegisters.nb
      requires kind.HoldingRegister? ==> registers.nb == 0 || n <= registers.nb
      modifies coils, discreteInputs, registers, inputRegisters
      ensures Valid() && rc == n
      ensures var s, a := old(View()), PduAddress(if startAddr < 0 then DataAddress(0) else startAddr);
              View() == match kind
                        case DiscreteInput => s.(discreteInputs := ResizeStep(s.discreteInputs, a, n, false))
                        case Coil => s.(coils := ResizeStep(s.coils, a, n, false))
                        case InputRegister => s.(inputRegisters := ResizeStep(s.inputRegisters, a, n, 0))
                        case HoldingRegister => s.(registers := ResizeStep(s.registers, a, n, 0))
      ensures var first := if startAddr < 0 then 0 else startAddr - if pduAddressing then 0 else 1;
              first == match kind
                       case DiscreteInput => discreteInputs.start
                       case Coil => coils.start
                       case InputRegister => inputRegisters.start
                       case HoldingRegister => registers.start
    {
      hide ResizeStep;
      var addr := startAddr;
      if addr < 0 {
        addr := if pduAddressing then 0 else 1;
      }
      match kind
      case DiscreteInput => rc := discreteInputs.Resize(PduAddress(addr), n, false);
      case Coil => rc := coils.Resize(PduAddress(addr), n, false);
      case InputRegister => rc := inputRegisters.Resize(PduAddress(addr), n, 0);
      case HoldingRegister => rc := registers.Resize(PduAddress(addr), n, 0);
    }
  }

  // ----- when two expressions of the source are right -----

  /** The address `readFromDevice` and `writeToDevice` pass on: `start + pduAddressing () ? 0 : 1`. */
  function ForwardedAddress(pduAddressing: bool, start: int): int {
    if start + (if pduAddressing then 1 else 0) != 0 then 0 else 1
  }

  /**
   It is the data address of `start`, into whose element the answer goes,
   exactly for the first element (or -1 with data addressing).
   */
  lemma ForwardedAddressIff(pduAddressing: bool, start: int)
    ensures ForwardedAddress(pduAddressing, start) == start + (if pduAddressing then 0 else 1)
       <==> start == 0 || (start == -1 && !pduAddressing)
  {
  }

  /** The address the two functions make of the requested one: the nearest in a block of `n` elements. */
  function Clamped(a: int, first: int, n: nat): (c: int)
    ensures n > 0 ==> first <= c < first + n
    ensures n > 0 && first <= a < first + n ==> c == a
  {
    var low := if a < first then first else a;
    if low < first + n - 1 then low else first + n - 1
  }

  /**
   For a request for PDU address `a`, the address forwarded is the one asked
   for exactly if `a` is 0 and, with data addressing, is not moved by the clamp.
   When the clamp gives -1, as for an empty block at 0, then with PDU
   addressing it is right for 1 instead.
   */
  lemma RequestForwardedIff(pduAddressing: bool, a: nat, first: int, n: nat)
    ensures ForwardedAddress(pduAddressing, Clamped(a, first, n)) == a + (if pduAddressing then 0 else 1)
       <==> if pduAddressing then a == if Clamped(a, first, n) == -1 then 1 else 0
            else a == 0 && Clamped(a, first, n) == 0
  {
  }

  /** For a request inside the block only PDU address 0 is forwarded right. */
  lemma RequestInBlockForwardedIff(pduAddressing: bool, a: nat, first: int, n: nat)
    requires first <= a < first + n
    ensures ForwardedAddress(pduAddressing, Clamped(a, first, n)) == a + (if pduAddressing then 0 else 1) <==> a == 0
  {
  }

  /**
   Three requests that go astray: element 5 of a block of ten, an address
   behind a block of one, and one to an empty block, with what is forwarded
   and the data address that was meant.
   */
  lemma ForwardedAstray()
    ensures ForwardedAddress(true, Clamped(5, 0, 10)) == 0 != 5
    ensures ForwardedAddress(false, Clamped(5, 0, 1)) == 1 != 6
    ensures ForwardedAddress(false, Clamped(7, 0, 0)) == 0 != 8
  {
  }

  /**
   Growing a register block clears registers 2 * old .. old + new, in a block
   of `new` registers. Those are the new registers, and lie in the block,
   only when there was nothing to grow.
   */
  lemma RegisterGrowthIff(before: nat, after: nat)
    requires before < after
    ensures Range(2 * before, after - before) == Range(before, after - before) <==> before == 0
    ensures Range(2 * before, after - before) <= Range(0, after) <==> before == 0
  {
    if before > 0 {
      assert before in Range(before, after - before) && before !in Range(2 * before, after - before);
      assert before + after - 1 in Range(2 * before, after - before);
    }
  }
}
