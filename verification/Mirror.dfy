/**
 One table of a `BufferedSlave`, as a value: the block it keeps, the table of
 the real slave behind it, and the elements the two may disagree on. Every
 operation of src/bufferedslave.cpp on a table is a step of this machine.
 */
module Mirror {

  /**
   What happens to the device's part of one call: the device is closed, or it
   carries the call out, or the call fails. A failed write may still have
   reached the real slave.
   */
  datatype Link = Offline | Answers | Fails(applied: bool)

  /**
   `cells[i]` has PDU address `start + i`; `far[a]` is the real slave's element
   at PDU address `a`. Outside `dirty` (indices into `cells`) the two agree.
   */
  datatype Table<T> = Table(cells: seq<T>, start: int, far: seq<T>, dirty: set<int>) {

    predicate InBlock(a: int) {
      start <= a < start + |cells|
    }

    /** `n` elements from address `a` on, clamped to the block. */
    function Span(a: int, n: nat): (k: int)
      requires InBlock(a)
      ensures 0 <= k <= n && a + k <= start + |cells|
    {
      if n < |cells| - (a - start) then n else |cells| - (a - start)
    }

    /** The block has `n` elements from address `a` on. */
    predicate Holds(a: int, n: int) {
      InBlock(a) && 0 <= n && a + n <= start + |cells|
    }

    function Values(a: int, n: int): (v: seq<T>)
      requires Holds(a, n)
    {
      cells[a - start..a - start + n]
    }

    predicate InFar(a: int, n: nat) {
      0 <= a && a + n <= |far|
    }

    /** The call reaches the real slave and addresses elements that it has. */
    predicate Done(a: int, n: nat, link: Link) {
      link.Answers? && InFar(a, n)
    }
  }

  function Blit<T>(s: seq<T>, at: nat, v: seq<T>): (r: seq<T>)
    requires at + |v| <= |s|
    ensures |r| == |s|
    ensures forall i :: 0 <= i < |s| ==> r[i] == if at <= i < at + |v| then v[i - at] else s[i]
  {
    s[..at] + v + s[at + |v|..]
  }

  function Range(at: int, n: nat): (r: set<int>)
    ensures forall i :: i in r <==> at <= i < at + n
  {
    if n == 0 then {} else Range(at, n - 1) + {at + n - 1}
  }

  /** The values are those the device, or when it is closed the block, has from address `a` on. */
  ghost predicate Delivers<T>(t: Table<T>, a: int, link: Link, values: seq<T>) {
    forall i :: 0 <= i < |values| ==>
      if link.Offline? then 0 <= a - t.start + i < |t.cells| && values[i] == t.cells[a - t.start + i]
      else 0 <= a + i < |t.far| && values[i] == t.far[a + i]
  }

  /** The block, and the device when it answers, have the values from address `a` on. */
  ghost predicate Took<T>(t: Table<T>, a: int, link: Link, values: seq<T>) {
    forall i :: 0 <= i < |values| ==>
      && 0 <= a - t.start + i < |t.cells| && t.cells[a - t.start + i] == values[i]
      && (link.Answers? ==> 0 <= a + i < |t.far| && t.far[a + i] == values[i])
  }

  // ----- the steps -----

  function ReadStep<T>(t: Table<T>, a: int, n: nat, link: Link): (Table<T>, int) {
    if !t.InBlock(a) then (t, -1)
    else
      var at, k := a - t.start, t.Span(a, n);
      if link.Offline? then (t, k)
      else if t.Done(a, k, link) then
        (t.(cells := Blit(t.cells, at, t.far[a..a + k]), dirty := t.dirty - Range(at, k)), k)
      else (t, -1)
  }

  /** The real slave's table after a write that was answered, or that failed and still took effect. */
  function FarWritten<T>(far: seq<T>, a: int, v: seq<T>, link: Link): (r: seq<T>)
    ensures |r| == |far|
  {
    if 0 <= a && a + |v| <= |far| && (link.Answers? || (link.Fails? && link.applied)) then Blit(far, a, v)
    else far
  }

  lemma OfflineWritesStayHere<T>(far: seq<T>, a: int, v: seq<T>)
    ensures FarWritten(far, a, v, Offline) == far
  {
  }

  function WriteStep<T>(t: Table<T>, a: int, v: seq<T>, link: Link): (Table<T>, int) {
    if !t.InBlock(a) then (t, -1)
    else
      var at, k := a - t.start, t.Span(a, |v|);
      var stored := t.(cells := Blit(t.cells, at, v[..k]), far := FarWritten(t.far, a, v[..k], link));
      if link.Offline? then (stored.(dirty := t.dirty + Range(at, k)), k)
      else if t.Done(a, k, link) then (stored.(dirty := t.dirty - Range(at, k)), k)
      else (stored.(dirty := t.dirty + Range(at, k)), -1)
  }

  /** `writeDiscreteInputs` and `writeInputRegisters`, which never reach the real slave. */
  function WriteLocalStep<T>(t: Table<T>, a: int, v: seq<T>): (Table<T>, int) {
    WriteStep(t, a, v, Offline)
  }

  function WriteReadStep<T>(t: Table<T>, wa: int, v: seq<T>, ra: int, n: nat, link: Link): (Table<T>, int) {
    if !t.InBlock(ra) || !t.InBlock(wa) then (t, -1)
    else
      var wat, w, rat, r := wa - t.start, t.Span(wa, |v|), ra - t.start, t.Span(ra, n);
      var stored := t.(cells := Blit(t.cells, wat, v[..w]));
      if link.Offline? then (stored.(dirty := t.dirty + Range(wat, w)), r)
      else if t.Done(wa, w, link) && t.InFar(ra, r) then
        var far := Blit(t.far, wa, v[..w]);
        (stored.(cells := Blit(stored.cells, rat, far[ra..ra + r]), far := far,
                 dirty := t.dirty - Range(wat, w) - Range(rat, r)), r)
      else
        var far := if link.Fails? then FarWritten(t.far, wa, v[..w], link) else t.far;
        (stored.(far := far, dirty := t.dirty + Range(wat, w)), -1)
  }

  /** `update*BlockFromSlave`: nothing is read, and 0 returned, when the device is closed. */
  function PullStep<T>(t: Table<T>, link: Link): (Table<T>, int) {
    if link.Offline? || t.cells == [] then (t, 0)
    else ReadStep(t, t.start, |t.cells|, link)
  }

  /** `updateSlave*FromBlock`. */
  function PushStep<T>(t: Table<T>, link: Link): (Table<T>, int) {
    if link.Offline? || t.cells == [] then (t, 0)
    else WriteStep(t, t.start, t.cells, link)
  }

  /** `set*Block` with memory to be had: the first elements are kept, new ones are zero. */
  function ResizeStep<T>(t: Table<T>, start: int, n: nat, zero: T): Table<T> {
    var kept := if n < |t.cells| then n else |t.cells|;
    t.(cells := t.cells[..kept] + seq(n - kept, _ => zero),
       start := start,
       dirty := if start == t.start then t.dirty + Range(kept, n - kept) else Range(0, n))
  }

  datatype Op<T> =
    | Read(a: int, n: nat)
    | Write(a: int, v: seq<T>)
    | WriteLocal(a: int, v: seq<T>)
    | WriteRead(wa: int, v: seq<T>, ra: int, n: nat)
    | Pull
    | Push
    | Resize(start: int, n: nat, zero: T)

  datatype Event<T> = Event(op: Op<T>, link: Link)

  function Step<T>(t: Table<T>, e: Event<T>): (Table<T>, int) {
    match e.op
    case Read(a, n) => ReadStep(t, a, n, e.link)
    case Write(a, v) => WriteStep(t, a, v, e.link)
    case WriteLocal(a, v) => WriteLocalStep(t, a, v)
    case WriteRead(wa, v, ra, n) => WriteReadStep(t, wa, v, ra, n, e.link)
    case Pull => PullStep(t, e.link)
    case Push => PushStep(t, e.link)
    case Resize(start, n, zero) => (ResizeStep(t, start, n, zero), n)
  }

  function Run<T>(t: Table<T>, es: seq<Event<T>>): Table<T> {
    if es == [] then t else Step(Run(t, es[..|es| - 1]), es[|es| - 1]).0
  }

  // ----- coherence -----

  ghost predicate Coherent<T>(t: Table<T>) {
    forall i :: 0 <= i < |t.cells| && i !in t.dirty ==> 0 <= t.start + i < |t.far| && t.cells[i] == t.far[t.start + i]
  }

  lemma ReadKeepsCoherence<T>(t: Table<T>, a: int, n: nat, link: Link)
    requires Coherent(t)
    ensures Coherent(ReadStep(t, a, n, link).0)
  {
  }

  lemma WriteKeepsCoherence<T>(t: Table<T>, a: int, v: seq<T>, link: Link)
    requires Coherent(t)
    ensures Coherent(WriteStep(t, a, v, link).0)
  {
  }

  lemma WriteReadKeepsCoherence<T>(t: Table<T>, wa: int, v: seq<T>, ra: int, n: nat, link: Link)
    requires Coherent(t)
    ensures Coherent(WriteReadStep(t, wa, v, ra, n, link).0)
  {
    if !t.InBlock(ra) || !t.InBlock(wa) {
    } else if link.Offline? {
    } else if t.Done(wa, t.Span(wa, |v|), link) && t.InFar(ra, t.Span(ra, n)) {
    } else {
    }
  }

  lemma StepKeepsCoherence<T>(t: Table<T>, e: Event<T>)
    requires Coherent(t)
    ensures Coherent(Step(t, e).0)
  {
    hide Coherent, ReadStep, WriteStep, WriteReadStep;
    match e.op
    case Read(a, n) => ReadKeepsCoherence(t, a, n, e.link);
    case Write(a, v) => WriteKeepsCoherence(t, a, v, e.link);
    case WriteLocal(a, v) => WriteKeepsCoherence(t, a, v, Offline);
    case WriteRead(wa, v, ra, n) => WriteReadKeepsCoherence(t, wa, v, ra, n, e.link);
    case Pull => ReadKeepsCoherence(t, t.start, |t.cells|, e.link);
    case Push => WriteKeepsCoherence(t, t.start, t.cells, e.link);
    case Resize(start, n, zero) => ResizeKeepsCoherence(t, start, n, zero);
  }

  lemma ResizeKeepsCoherence<T>(t: Table<T>, start: int, n: nat, zero: T)
    requires Coherent(t)
    ensures Coherent(ResizeStep(t, start, n, zero))
  {
  }

  /** Whatever the device does, cells outside the dirty set equal the real slave's. */
  lemma {:induction false} RunKeepsCoherence<T>(t: Table<T>, es: seq<Event<T>>)
    requires Coherent(t)
    ensures Coherent(Run(t, es))
  {
    hide Coherent, Step;
    if es == [] {
    } else {
      RunKeepsCoherence(t, es[..|es| - 1]);
      StepKeepsCoherence(Run(t, es[..|es| - 1]), es[|es| - 1]);
    }
  }

  ghost predicate Clean<T>(t: Table<T>) {
    forall i :: 0 <= i < |t.cells| ==> i !in t.dirty
  }

  /** A block that is wholly the real slave's. */
  ghost predicate Mirrors<T>(t: Table<T>) {
    t.InFar(t.start, |t.cells|) && t.cells == t.far[t.start..t.start + |t.cells|]
  }

  lemma CleanMirrors<T>(t: Table<T>)
    requires Coherent(t) && Clean(t) && t.cells != []
    ensures Mirrors(t)
  {
    assert 0 !in t.dirty && |t.cells| - 1 !in t.dirty;
  }

  /** A successful pull from an open device makes a mirror of any block, however it was before. */
  lemma PullMirrors<T>(t: Table<T>, link: Link)
    requires !link.Offline? && t.cells != []
    ensures var (t', rc) := PullStep(t, link);
            (rc >= 0 <==> t.Done(t.start, |t.cells|, link)) &&
            if rc >= 0 then rc == |t.cells| && Clean(t') && Coherent(t') && Mirrors(t') && t'.far == t.far
            else t' == t
  {
  }

  /** A successful push makes the real slave's range equal to the block. */
  lemma PushMirrors<T>(t: Table<T>, link: Link)
    requires !link.Offline? && t.cells != []
    ensures var (t', rc) := PushStep(t, link);
            && (rc >= 0 <==> t.Done(t.start, |t.cells|, link))
            && t'.cells == t.cells && t'.start == t.start && |t'.far| == |t.far|
            && (rc >= 0 ==> rc == |t.cells| && Clean(t') && Coherent(t') && Mirrors(t'))
  {
    assert Blit(t.cells, 0, t.cells[..|t.cells|]) == t.cells;
  }

  /** Nothing behind or in front of the block is changed in the real slave by a push. */
  lemma PushKeepsRest<T>(t: Table<T>, link: Link, b: nat)
    requires b < |t.far| && !(t.start <= b < t.start + |t.cells|)
    ensures var t' := PushStep(t, link).0;
            |t'.far| == |t.far| && t'.far[b] == t.far[b]
  {
    hide WriteStep;
    WriteReturns(t, t.start, t.cells, link);
  }

  // ----- what the operations do, element by element -----

  /**
   A read: the real slave's elements when it answers, the block's when the
   device is closed, clamped to the block; else -1 and nothing changes.
   */
  lemma ReadReturns<T>(t: Table<T>, a: int, n: nat, link: Link)
    ensures var (t', rc) := ReadStep(t, a, n, link);
            var inBlock, room := t.start <= a < t.start + |t.cells|, t.start + |t.cells| - a;
            var k := if n < room then n else room;
            && (rc == -1 <==> !inBlock || !(link.Offline? || (link.Answers? && 0 <= a && a + k <= |t.far|)))
            && (rc == -1 ==> t' == t)
            && (rc != -1 ==> rc == k)
            && t'.far == t.far && t'.start == t.start && |t'.cells| == |t.cells|
            && (forall i :: 0 <= i < |t.cells| ==>
                  t'.cells[i] == if rc != -1 && !link.Offline? && a <= t.start + i < a + k then t.far[t.start + i]
                                 else t.cells[i])
  {
  }

  /**
   A write: the caller's values go into the block, clamped, and to the real
   slave when the device is open and the slave has the range, whether it
   answers or fails with the call carried out. Nothing else changes.
   */
  lemma WriteReturns<T>(t: Table<T>, a: int, v: seq<T>, link: Link)
    ensures var (t', rc) := WriteStep(t, a, v, link);
            var inBlock, room := t.start <= a < t.start + |t.cells|, t.start + |t.cells| - a;
            var k := if |v| < room then |v| else room;
            var inFar := 0 <= a && a + k <= |t.far|;
            && (rc == -1 <==> !inBlock || !(link.Offline? || (link.Answers? && inFar)))
            && (rc != -1 ==> rc == k)
            && (!inBlock ==> t' == t)
            && t'.start == t.start && |t'.cells| == |t.cells| && |t'.far| == |t.far|
            && (forall i :: 0 <= i < |t.cells| ==>
                  t'.cells[i] == if inBlock && a <= t.start + i < a + k then v[t.start + i - a] else t.cells[i])
            && (forall b :: 0 <= b < |t.far| ==>
                  t'.far[b] == if inBlock && inFar && (link == Answers || link == Fails(true)) && a <= b < a + k
                               then v[b - a] else t.far[b])
  {
  }

  /** A write to discrete inputs or input registers: the block takes the values, the real slave never does. */
  lemma WriteLocalReturns<T>(t: Table<T>, a: int, v: seq<T>)
    ensures var (t', rc) := WriteLocalStep(t, a, v);
            var inBlock, room := t.start <= a < t.start + |t.cells|, t.start + |t.cells| - a;
            var k := if |v| < room then |v| else room;
            && rc == (if inBlock then k else -1)
            && t'.far == t.far && t'.start == t.start && |t'.cells| == |t.cells|
            && (forall i :: 0 <= i < |t.cells| ==>
                  t'.cells[i] == if inBlock && a <= t.start + i < a + k then v[t.start + i - a] else t.cells[i])
  {
  }

  /** A block of `n` elements: the first ones are kept, those behind the old end are zero; the real slave stays. */
  lemma ResizeReturns<T>(t: Table<T>, start: int, n: nat, zero: T)
    ensures var t' := ResizeStep(t, start, n, zero);
            && t'.start == start && t'.far == t.far && |t'.cells| == n
            && forall i :: 0 <= i < n ==> t'.cells[i] == if i < |t.cells| then t.cells[i] else zero
  {
  }

  /**
   Section 6.17 of the MODBUS Application Protocol V1.1b3: the write is done
   before the read. Both ranges are clamped on their own; when the device
   answers, the elements read are the real slave's after the write; nothing
   outside the two ranges changes.
   */
  lemma WriteReadReturns<T>(t: Table<T>, wa: int, v: seq<T>, ra: int, n: nat, link: Link)
    ensures var (t', rc) := WriteReadStep(t, wa, v, ra, n, link);
            var end := t.start + |t.cells|;
            var inBlock := t.start <= wa < end && t.start <= ra < end;
            var w := if |v| < end - wa then |v| else end - wa;
            var r := if n < end - ra then n else end - ra;
            var written := 0 <= wa && wa + w <= |t.far|;
            var answered := link.Answers? && written && 0 <= ra && ra + r <= |t.far|;
            && (rc == -1 <==> !inBlock || !(link.Offline? || answered))
            && (rc != -1 ==> rc == r)
            && (!inBlock ==> t' == t)
            && t'.start == t.start && |t'.far| == |t.far|
            && (forall b :: 0 <= b < |t.far| ==>
                  t'.far[b] == if inBlock && wa <= b < wa + w && (answered || (written && link == Fails(true)))
                               then v[b - wa] else t.far[b])
  {
  }

  /** The block after the same call. */
  lemma WriteReadCells<T>(t: Table<T>, wa: int, v: seq<T>, ra: int, n: nat, link: Link)
    ensures var t' := WriteReadStep(t, wa, v, ra, n, link).0;
            var end := t.start + |t.cells|;
            var inBlock := t.start <= wa < end && t.start <= ra < end;
            var w := if |v| < end - wa then |v| else end - wa;
            var r := if n < end - ra then n else end - ra;
            var answered := link.Answers? && 0 <= wa && wa + w <= |t.far| && 0 <= ra && ra + r <= |t.far|;
            && |t'.cells| == |t.cells| && |t'.far| == |t.far|
            && (forall i :: 0 <= i < |t.cells| ==>
                  t'.cells[i] == if inBlock && answered && ra <= t.start + i < ra + r then t'.far[t.start + i]
                                 else if inBlock && wa <= t.start + i < wa + w then v[t.start + i - wa]
                                 else t.cells[i])
  {
    if !t.InBlock(ra) || !t.InBlock(wa) {
    } else if link.Offline? {
    } else if t.Done(wa, t.Span(wa, |v|), link) && t.InFar(ra, t.Span(ra, n)) {
    } else {
    }
  }

  lemma ReadDelivers<T>(t: Table<T>, a: int, n: nat, link: Link)
    requires ReadStep(t, a, n, link).1 >= 0
    ensures var (t', rc) := ReadStep(t, a, n, link);
            t'.Holds(a, rc) && Delivers(t, a, link, t'.Values(a, rc))
  {
  }

  lemma WriteTook<T>(t: Table<T>, a: int, v: seq<T>, link: Link)
    requires WriteStep(t, a, v, link).1 >= 0
    ensures var (t', rc) := WriteStep(t, a, v, link);
            rc <= |v| && Took(t', a, link, v[..rc])
  {
  }

  lemma WriteReadDelivers<T>(t: Table<T>, wa: int, v: seq<T>, ra: int, n: nat, link: Link)
    requires WriteReadStep(t, wa, v, ra, n, link).1 >= 0
    ensures var (t', rc) := WriteReadStep(t, wa, v, ra, n, link);
            && t'.Holds(ra, rc) && Delivers(t', ra, link, t'.Values(ra, rc))
            && t.InBlock(wa) && Took(t', wa, link, v[..t.Span(wa, |v|)])
  {
    hide WriteReadStep;
    WriteReadReturns(t, wa, v, ra, n, link);
    WriteReadCells(t, wa, v, ra, n, link);
    var (t', rc) := WriteReadStep(t, wa, v, ra, n, link);
    var values := t'.Values(ra, rc);
    forall i | 0 <= i < rc
      ensures values[i] == t'.cells[ra - t.start + i]
      ensures !link.Offline? ==> 0 <= ra + i < |t'.far| && values[i] == t'.far[ra + i]
    {
      assert t.start + (ra - t.start + i) == ra + i;
    }
    forall i | 0 <= i < t.Span(wa, |v|)
      ensures t'.cells[wa - t.start + i] == v[i]
      ensures link.Answers? ==> 0 <= wa + i < |t'.far| && t'.far[wa + i] == v[i]
    {
      assert t.start + (wa - t.start + i) == wa + i;
    }
  }

  // ----- clean runs -----

  /** The events that leave no cell behind: reads, and writes the real slave answered. */
  predicate Safe<T>(t: Table<T>, e: Event<T>) {
    match e.op
    case Read(_, _) => true
    case Pull => true
    case WriteLocal(_, _) => false
    case Resize(_, _, _) => false
    case _ => Step(t, e).1 >= 0 && !e.link.Offline?
  }

  ghost predicate AllSafe<T>(t: Table<T>, es: seq<Event<T>>) {
    forall i :: 0 <= i < |es| ==> Safe(Run(t, es[..i]), es[i])
  }

  lemma SafeStepStaysClean<T>(t: Table<T>, e: Event<T>)
    requires Clean(t) && Safe(t, e)
    ensures Clean(Step(t, e).0)
    ensures |Step(t, e).0.cells| == |t.cells|
  {
  }

  lemma {:induction false} SafeRunStaysClean<T>(t: Table<T>, es: seq<Event<T>>)
    requires Clean(t) && AllSafe(t, es)
    ensures Clean(Run(t, es)) && |Run(t, es).cells| == |t.cells|
  {
    hide Clean, Safe, Step;
    if es == [] {
    } else {
      var init := es[..|es| - 1];
      assert forall i :: 0 <= i < |init| ==> init[..i] == es[..i];
      SafeRunStaysClean(t, init);
      assert Safe(Run(t, init), es[|es| - 1]);
      SafeStepStaysClean(Run(t, init), es[|es| - 1]);
    }
  }

  /**
   The cache law. After a successful pull and any run of operations whatever:
   a cell can differ from the real slave only if it is dirty; and if no write
   failed, was made with the device closed or was local only, none differs.
   */
  lemma CoherenceAfterPull<T>(t: Table<T>, es: seq<Event<T>>)
    requires t.cells != [] && PullStep(t, Answers).1 >= 0
    ensures var t1 := PullStep(t, Answers).0;
            && Coherent(Run(t1, es))
            && (AllSafe(t1, es) ==> Mirrors(Run(t1, es)))
  {
    hide Coherent, Clean, Step, PullStep, Mirrors;
    PullMirrors(t, Answers);
    var t1 := PullStep(t, Answers).0;
    RunKeepsCoherence(t1, es);
    if AllSafe(t1, es) {
      PullLength(t);
      SafeRunStaysClean(t1, es);
      CleanMirrors(Run(t1, es));
    }
  }

  lemma PullLength<T>(t: Table<T>)
    ensures |PullStep(t, Answers).0.cells| == |t.cells|
  {
  }

  /** The event writes cell `i` without an answer from the real slave, or makes it anew. */
  predicate Leaves<T>(t: Table<T>, e: Event<T>, i: int) {
    match e.op
    case Write(a, v) =>
      t.InBlock(a) && a <= t.start + i < a + t.Span(a, |v|) && !t.Done(a, t.Span(a, |v|), e.link)
    case WriteLocal(a, v) =>
      t.InBlock(a) && a <= t.start + i < a + t.Span(a, |v|)
    case WriteRead(wa, v, ra, n) =>
      && t.InBlock(wa) && t.InBlock(ra) && wa <= t.start + i < wa + t.Span(wa, |v|)
      && !(t.Done(wa, t.Span(wa, |v|), e.link) && t.InFar(ra, t.Span(ra, n)))
    case Push => !e.link.Offline? && !t.Done(t.start, |t.cells|, e.link)
    case Resize(start, n, _) => start != t.start || i >= |t.cells|
    case _ => false
  }

  lemma StepLeaves<T>(t: Table<T>, e: Event<T>, i: int)
    requires 0 <= i < |Step(t, e).0.cells| && i in Step(t, e).0.dirty
    ensures Leaves(t, e, i) || (i in t.dirty && i < |t.cells|)
  {
  }

  /** Some event of the run is the cause of cell `i` being behind. */
  ghost predicate HasCause<T>(t: Table<T>, es: seq<Event<T>>, i: int) {
    exists j :: 0 <= j < |es| && Leaves(Run(t, es[..j]), es[j], i)
  }

  lemma {:induction false} DirtyHasCause<T>(t: Table<T>, es: seq<Event<T>>, i: int)
    requires Clean(t) && 0 <= i < |Run(t, es).cells| && i in Run(t, es).dirty
    ensures HasCause(t, es, i)
  {
    hide Step, Leaves;
    if es == [] {
    } else {
      var n := |es| - 1;
      var init := es[..n];
      StepLeaves(Run(t, init), es[n], i);
      if !Leaves(Run(t, init), es[n], i) {
        DirtyHasCause(t, init, i);
        var j :| 0 <= j < n && Leaves(Run(t, init[..j]), init[j], i);
        assert init[..j] == es[..j];
        assert Leaves(Run(t, es[..j]), es[j], i);
      }
    }
  }

  /**
   Where a block and the real slave differ after a pull and any run, some
   write to that very cell failed, was local, or found the device closed, or
   the block was given new limits.
   */
  lemma DifferenceHasCause<T>(t: Table<T>, es: seq<Event<T>>, i: int)
    requires t.cells != [] && PullStep(t, Answers).1 >= 0
    requires var t2 := Run(PullStep(t, Answers).0, es);
             0 <= i < |t2.cells| && !(0 <= t2.start + i < |t2.far| && t2.cells[i] == t2.far[t2.start + i])
    ensures HasCause(PullStep(t, Answers).0, es, i)
  {
    hide Clean, Step, PullStep, Mirrors, HasCause;
    PullMirrors(t, Answers);
    var t1 := PullStep(t, Answers).0;
    RunKeepsCoherence(t1, es);
    DirtyHasCause(t1, es, i);
  }

  /** The dirty set is needed: after a failed write, block and real slave do differ. */
  lemma FailedWriteCanDiffer()
    ensures var t := Table([0], 0, [0], {});
            var t' := Step(t, Event(Write(0, [1]), Fails(false))).0;
            Coherent(t) && Clean(t) && t'.cells != t'.far
  {
    var t := Table([0], 0, [0], {});
    var t' := WriteStep(t, 0, [1], Fails(false)).0;
    assert t'.cells[0] == 1 && t'.far[0] == 0;
  }

  // ----- write before read -----

  /** The contents of address `b` after a write of `v` at `a`. */
  function After<T>(t: Table<T>, a: int, v: seq<T>, b: int): T
    requires t.InBlock(b)
  {
    if a <= b < a + |v| then v[b - a] else t.cells[b - t.start]
  }

  /**
   Section 6.17 of the MODBUS Application Protocol V1.1b3: the write is done
   before the read. Both ranges are clamped on their own, nothing outside the
   write range changes, and a rejected call changes nothing.
   */
  lemma WriteReadOffline<T>(t: Table<T>, wa: int, v: seq<T>, ra: int, n: nat)
    ensures var (t', rc) := WriteReadStep(t, wa, v, ra, n, Offline);
            && (rc == -1 <==> !t.InBlock(wa) || !t.InBlock(ra))
            && (rc == -1 ==> t' == t)
            && (rc != -1 ==>
                  && rc == t.Span(ra, n) && |t'.cells| == |t.cells| && t'.start == t.start && t'.far == t.far
                  && forall b :: t.InBlock(b) ==> t'.cells[b - t.start] == After(t, wa, v, b))
  {
  }

  /** With the device open and answering, the elements read are the real slave's after the write. */
  lemma WriteReadOnline<T>(t: Table<T>, wa: int, v: seq<T>, ra: int, n: nat)
    requires t.InBlock(wa) && t.InBlock(ra)
    requires t.InFar(wa, t.Span(wa, |v|)) && t.InFar(ra, t.Span(ra, n))
    ensures var (t', rc) := WriteReadStep(t, wa, v, ra, n, Answers);
            && rc == t.Span(ra, n)
            && (forall b :: wa <= b < wa + t.Span(wa, |v|) ==> t'.far[b] == v[b - wa] == t'.cells[b - t.start])
            && (forall b :: ra <= b < ra + rc ==> t'.cells[b - t.start] == t'.far[b])
  {
    hide WriteReadStep;
    WriteReadReturns(t, wa, v, ra, n, Answers);
    WriteReadCells(t, wa, v, ra, n, Answers);
  }

  /**
   An open device that does not carry out both halves, because the call fails
   or a range lies outside the real slave, gives -1 with the write made in the
   block all the same.
   */
  lemma WriteReadFailure<T>(t: Table<T>, wa: int, v: seq<T>, ra: int, n: nat, link: Link)
    requires t.InBlock(wa) && t.InBlock(ra)
    ensures var (t', rc) := WriteReadStep(t, wa, v, ra, n, link);
            && (rc == -1 <==> !link.Offline? && !(t.Done(wa, t.Span(wa, |v|), link) && t.InFar(ra, t.Span(ra, n))))
            && (rc == -1 ==>
                  && |t'.cells| == |t.cells| && t'.start == t.start
                  && (forall b :: t.InBlock(b) ==> t'.cells[b - t.start] == After(t, wa, v, b))
                  && (link != Fails(true) ==> t'.far == t.far))
  {
  }

  /**
   When a call that returns -1 leaves the block as it was: exactly when an
   address is outside the block, or the block held those very values before.
   */
  lemma RejectedKeepsBlockIff<T>(t: Table<T>, wa: int, v: seq<T>, ra: int, n: nat, link: Link)
    requires WriteReadStep(t, wa, v, ra, n, link).1 == -1
    ensures WriteReadStep(t, wa, v, ra, n, link).0.cells == t.cells
       <==> (t.InBlock(wa) && t.InBlock(ra) ==> t.Values(wa, t.Span(wa, |v|)) == v[..t.Span(wa, |v|)])
  {
    if t.InBlock(wa) && t.InBlock(ra) {
      var w, at := t.Span(wa, |v|), wa - t.start;
      var now := WriteReadStep(t, wa, v, ra, n, link).0.cells;
      assert now[at..at + w] == v[..w];
      if t.Values(wa, w) == v[..w] {
        assert forall i :: at <= i < at + w ==> t.Values(wa, w)[i - at] == t.cells[i];
        assert now == t.cells;
      }
    }
  }

  /** The same for a plain write, which makes its change in the block before it asks the device. */
  lemma FailedWriteKeepsBlockIff<T>(t: Table<T>, a: int, v: seq<T>, link: Link)
    requires WriteStep(t, a, v, link).1 == -1
    ensures WriteStep(t, a, v, link).0.cells == t.cells
       <==> (t.InBlock(a) ==> t.Values(a, t.Span(a, |v|)) == v[..t.Span(a, |v|)])
  {
    if t.InBlock(a) {
      var k, at := t.Span(a, |v|), a - t.start;
      var now := WriteStep(t, a, v, link).0.cells;
      assert now[at..at + k] == v[..k];
      if t.Values(a, k) == v[..k] {
        assert forall i :: at <= i < at + k ==> t.Values(a, k)[i - at] == t.cells[i];
        assert now == t.cells;
      }
    }
  }

  // ----- an address map as reference -----

  /** A block as what it is for: values by address. */
  datatype Memory<T> = Memory(first: int, count: nat, at: map<int, T>)

  function AsMemory<T>(t: Table<T>): Memory<T> {
    Memory(t.start, |t.cells|, map a | a in Range(t.start, |t.cells|) :: t.cells[a - t.start])
  }

  function MemoryWrite<T>(m: Memory<T>, a: int, v: seq<T>): Memory<T> {
    if a !in m.at then m
    else m.(at := map b | b in m.at :: if a <= b < a + |v| then v[b - a] else m.at[b])
  }

  function MemoryResize<T>(m: Memory<T>, first: int, count: nat, zero: T): Memory<T>
    requires forall b: int {:trigger b in m.at} :: m.first <= b < m.first + m.count ==> b in m.at
  {
    Memory(first, count,
           map b | b in Range(first, count) ::
             if b - first < m.count then m.at[b - first + m.first] else zero)
  }

  /** Operations while the device is closed, on the reference. */
  function MemoryStep<T>(m: Memory<T>, op: Op<T>): Memory<T>
    requires forall b: int {:trigger b in m.at} :: m.first <= b < m.first + m.count ==> b in m.at
  {
    match op
    case Write(a, v) => MemoryWrite(m, a, v)
    case WriteLocal(a, v) => MemoryWrite(m, a, v)
    case WriteRead(wa, v, ra, _) => if ra in m.at then MemoryWrite(m, wa, v) else m
    case Resize(start, n, zero) => MemoryResize(m, start, n, zero)
    case _ => m
  }

  lemma WriteIsMemoryWrite<T>(t: Table<T>, a: int, v: seq<T>)
    ensures AsMemory(WriteStep(t, a, v, Offline).0) == MemoryWrite(AsMemory(t), a, v)
  {
    hide FarWritten;
    if t.InBlock(a) {
      var now, wanted := AsMemory(WriteStep(t, a, v, Offline).0), MemoryWrite(AsMemory(t), a, v);
      forall b | b in now.at
        ensures b in wanted.at && now.at[b] == wanted.at[b]
      {
        assert b in AsMemory(t).at;
      }
    }
  }

  lemma ResizeIsMemoryResize<T>(t: Table<T>, start: int, n: nat, zero: T)
    ensures AsMemory(ResizeStep(t, start, n, zero)) == MemoryResize(AsMemory(t), start, n, zero)
  {
  }

  lemma WriteReadIsMemoryWrite<T>(t: Table<T>, wa: int, v: seq<T>, ra: int, n: nat)
    ensures AsMemory(WriteReadStep(t, wa, v, ra, n, Offline).0)
         == if t.InBlock(ra) then MemoryWrite(AsMemory(t), wa, v) else AsMemory(t)
  {
    hide WriteReadStep;
    WriteReadReturns(t, wa, v, ra, n, Offline);
    WriteReadCells(t, wa, v, ra, n, Offline);
  }

  function MemoryRun<T>(t: Table<T>, es: seq<Event<T>>): (m: Memory<T>)
    ensures forall b: int {:trigger b in m.at} :: m.first <= b < m.first + m.count ==> b in m.at
  {
    if es == [] then AsMemory(t)
    else MemoryStep(MemoryRun(t, es[..|es| - 1]), es[|es| - 1].op)
  }

  lemma StepIsMemoryStep<T>(t: Table<T>, op: Op<T>)
    ensures AsMemory(Step(t, Event(op, Offline)).0) == MemoryStep(AsMemory(t), op)
  {
    hide WriteStep, ResizeStep, WriteReadStep, MemoryWrite, MemoryResize;
    match op
    case Write(a, v) => WriteIsMemoryWrite(t, a, v);
    case WriteLocal(a, v) => WriteIsMemoryWrite(t, a, v);
    case WriteRead(wa, v, ra, n) => WriteReadIsMemoryWrite(t, wa, v, ra, n);
    case Resize(start, n, zero) => ResizeIsMemoryResize(t, start, n, zero);
    case _ =>
  }

  /** Over every run with the device closed the block is the address map, element for element. */
  lemma {:induction false} RunIsMemoryRun<T>(t: Table<T>, es: seq<Event<T>>)
    requires forall i :: 0 <= i < |es| ==> es[i].link.Offline?
    ensures AsMemory(Run(t, es)) == MemoryRun(t, es)
  {
    hide Step, AsMemory, MemoryStep;
    if es == [] {
    } else {
      var last := es[|es| - 1];
      RunIsMemoryRun(t, es[..|es| - 1]);
      StepIsMemoryStep(Run(t, es[..|es| - 1]), last.op);
      assert last == Event(last.op, Offline);
    }
  }
}
