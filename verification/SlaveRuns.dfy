/**
 Runs of a whole `BufferedSlave`: operations on any of its four tables, and the
 full updates `updateBlockFromSlave()` and `updateSlaveFromBlock()`.
 */
module SlaveRuns {
  import opened Bytes
  import opened Mirror
  import opened Slaves

  // ----- runs -----

  /**
   One operation on one table, or a full update. Events that resize a register
   block to more elements than it has, but not from none, go beyond the source,
   which does not carry them out as `ResizeStep` (see `RegisterGrowthIff`).
   */
  datatype SlaveEvent =
    | OnCoils(bits: Event<bool>)
    | OnDiscreteInputs(bits: Event<bool>)
    | OnRegisters(words: Event<word>)
    | OnInputRegisters(words: Event<word>)
    | PullTables(links: Links)
    | PushTables(links: Links)

  function SlaveStep(s: Tables, e: SlaveEvent): Tables {
    match e
    case OnCoils(b) => s.(coils := Step(s.coils, b).0)
    case OnDiscreteInputs(b) => s.(discreteInputs := Step(s.discreteInputs, b).0)
    case OnRegisters(w) => s.(registers := Step(s.registers, w).0)
    case OnInputRegisters(w) => s.(inputRegisters := Step(s.inputRegisters, w).0)
    case PullTables(l) => PullAll(s, l).0
    case PushTables(l) => PushAll(s, l).0
  }

  function SlaveRun(s: Tables, es: seq<SlaveEvent>): Tables {
    if es == [] then s else SlaveStep(SlaveRun(s, es[..|es| - 1]), es[|es| - 1])
  }

  ghost predicate AllCoherent(s: Tables) {
    Coherent(s.coils) && Coherent(s.discreteInputs) && Coherent(s.registers) && Coherent(s.inputRegisters)
  }

  lemma PullKeepsCoherence<T>(t: Table<T>, link: Link)
    requires Coherent(t)
    ensures Coherent(PullStep(t, link).0)
  {
    StepKeepsCoherence(t, Event(Pull, link));
  }

  lemma PushKeepsCoherence<T>(t: Table<T>, link: Link)
    requires Coherent(t)
    ensures Coherent(PushStep(t, link).0)
  {
    StepKeepsCoherence(t, Event(Push, link));
  }

  lemma SlaveStepKeepsCoherence(s: Tables, e: SlaveEvent)
    requires AllCoherent(s)
    ensures AllCoherent(SlaveStep(s, e))
  {
    hide Coherent, Step, PullStep, PushStep;
    match e
    case OnCoils(b) => StepKeepsCoherence(s.coils, b);
    case OnDiscreteInputs(b) => StepKeepsCoherence(s.discreteInputs, b);
    case OnRegisters(w) => StepKeepsCoherence(s.registers, w);
    case OnInputRegisters(w) => StepKeepsCoherence(s.inputRegisters, w);
    case PullTables(l) =>
      PullKeepsCoherence(s.coils, l.coils);
      PullKeepsCoherence(s.registers, l.registers);
      PullKeepsCoherence(s.discreteInputs, l.discreteInputs);
      PullKeepsCoherence(s.inputRegisters, l.inputRegisters);
    case PushTables(l) =>
      PushKeepsCoherence(s.coils, l.coils);
      PushKeepsCoherence(s.registers, l.registers);
  }

  /** A new slave has empty blocks; from there on no run of operations breaks coherence. */
  lemma {:induction false} SlaveRunKeepsCoherence(s: Tables, es: seq<SlaveEvent>)
    requires AllCoherent(s)
    ensures AllCoherent(SlaveRun(s, es))
  {
    hide AllCoherent, SlaveStep;
    if es == [] {
    } else {
      SlaveRunKeepsCoherence(s, es[..|es| - 1]);
      SlaveStepKeepsCoherence(SlaveRun(s, es[..|es| - 1]), es[|es| - 1]);
    }
  }

  /** No element of the block differs from the real slave's. */
  ghost predicate Current<T>(t: Table<T>) {
    t.cells == [] || Mirrors(t)
  }

  ghost predicate MirrorsOrEmpty<T>(t: Table<T>) {
    Clean(t) && Current(t)
  }

  predicate Open(l: Links) {
    !l.coils.Offline? && !l.registers.Offline? && !l.discreteInputs.Offline? && !l.inputRegisters.Offline?
  }

  /** The condition under which one table of an open device can be read whole. */
  predicate Readable<T>(t: Table<T>, link: Link) {
    t.cells == [] || t.Done(t.start, |t.cells|, link)
  }

  lemma PullOne<T>(t: Table<T>, link: Link)
    requires !link.Offline?
    ensures PullStep(t, link).1 >= 0 <==> Readable(t, link)
    ensures PullStep(t, link).1 >= 0 ==> MirrorsOrEmpty(PullStep(t, link).0)
  {
    hide Mirrors, PullStep;
    if t.cells != [] {
      PullMirrors(t, link);
    } else {
      PullEmpty(t, link);
    }
  }

  lemma PullEmpty<T>(t: Table<T>, link: Link)
    requires t.cells == []
    ensures PullStep(t, link) == (t, 0)
  {
  }

  /** With the device open, `updateBlockFromSlave` is true exactly when every table came over, and then all mirror. */
  lemma PullAllMirrors(s: Tables, l: Links)
    requires Open(l)
    ensures var (s', ok) := PullAll(s, l);
            && (ok <==> (&& Readable(s.coils, l.coils) && Readable(s.registers, l.registers)
                         && Readable(s.discreteInputs, l.discreteInputs)
                         && Readable(s.inputRegisters, l.inputRegisters)))
            && (ok ==> (&& MirrorsOrEmpty(s'.coils) && MirrorsOrEmpty(s'.registers)
                        && MirrorsOrEmpty(s'.discreteInputs) && MirrorsOrEmpty(s'.inputRegisters)))
  {
    hide PullStep, MirrorsOrEmpty, Readable;
    PullOne(s.coils, l.coils);
    PullOne(s.registers, l.registers);
    PullOne(s.discreteInputs, l.discreteInputs);
    PullOne(s.inputRegisters, l.inputRegisters);
  }

  lemma PushOne<T>(t: Table<T>, link: Link)
    requires !link.Offline?
    ensures PushStep(t, link).1 >= 0 <==> Readable(t, link)
    ensures PushStep(t, link).1 >= 0 ==> MirrorsOrEmpty(PushStep(t, link).0)
    ensures PushStep(t, link).0.cells == t.cells
  {
    hide Mirrors, PushStep;
    if t.cells != [] {
      PushMirrors(t, link);
    } else {
      PushEmpty(t, link);
    }
  }

  lemma PushEmpty<T>(t: Table<T>, link: Link)
    requires t.cells == []
    ensures PushStep(t, link) == (t, 0)
  {
  }

  /** With the device open, `updateSlaveFromBlock` is true exactly when both tables went over, and no block changes. */
  lemma PushAllMirrors(s: Tables, l: Links)
    requires Open(l)
    ensures var (s', ok) := PushAll(s, l);
            && (ok <==> Readable(s.coils, l.coils) && Readable(s.registers, l.registers))
            && (ok ==> MirrorsOrEmpty(s'.coils) && MirrorsOrEmpty(s'.registers))
            && s'.coils.cells == s.coils.cells && s'.registers.cells == s.registers.cells
            && s'.discreteInputs == s.discreteInputs && s'.inputRegisters == s.inputRegisters
  {
    hide PushStep, MirrorsOrEmpty, Readable;
    PushOne(s.coils, l.coils);
    PushOne(s.registers, l.registers);
  }

  /** An open device that cannot give, or take, the whole of a block that is not empty. */
  predicate Refuses<T>(t: Table<T>, link: Link) {
    !link.Offline? && t.cells != [] && !(link.Answers? && 0 <= t.start && t.start + |t.cells| <= |t.far|)
  }

  lemma PullRefused<T>(t: Table<T>, link: Link)
    ensures PullStep(t, link).1 < 0 <==> Refuses(t, link)
    ensures Refuses(t, link) ==> PullStep(t, link).0 == t
  {
  }

  lemma PushRefused<T>(t: Table<T>, link: Link)
    ensures PushStep(t, link).1 < 0 <==> Refuses(t, link)
  {
  }

  /**
   A full update goes through coils, holding registers, discrete inputs and
   input registers in that order; the first that is refused stops it, and that
   one and those behind it are as they were.
   */
  lemma PullAllStops(s: Tables, l: Links)
    ensures var (s', ok) := PullAll(s, l);
            var coils, registers := PullStep(s.coils, l.coils).0, PullStep(s.registers, l.registers).0;
            var discreteInputs := PullStep(s.discreteInputs, l.discreteInputs).0;
            var inputRegisters := PullStep(s.inputRegisters, l.inputRegisters).0;
            if Refuses(s.coils, l.coils) then !ok && s' == s
            else if Refuses(s.registers, l.registers) then !ok && s' == s.(coils := coils)
            else if Refuses(s.discreteInputs, l.discreteInputs) then
              !ok && s' == s.(coils := coils, registers := registers)
            else if Refuses(s.inputRegisters, l.inputRegisters) then
              !ok && s' == s.(coils := coils, registers := registers, discreteInputs := discreteInputs)
            else ok && s' == Tables(coils, discreteInputs, registers, inputRegisters)
  {
    hide PullStep, Refuses;
    PullRefused(s.coils, l.coils);
    PullRefused(s.registers, l.registers);
    PullRefused(s.discreteInputs, l.discreteInputs);
    PullRefused(s.inputRegisters, l.inputRegisters);
  }

  /** The way back: coils, then holding registers, which stay when the coils are refused. */
  lemma PushAllStops(s: Tables, l: Links)
    ensures var (s', ok) := PushAll(s, l);
            var coils, registers := PushStep(s.coils, l.coils).0, PushStep(s.registers, l.registers).0;
            if Refuses(s.coils, l.coils) then !ok && s' == s.(coils := coils)
            else ok == !Refuses(s.registers, l.registers) && s' == s.(coils := coils, registers := registers)
  {
    hide PushStep, Refuses;
    PushRefused(s.coils, l.coils);
    PushRefused(s.registers, l.registers);
  }

  // ----- when true is true -----

  predicate Closed(l: Links) {
    l.coils.Offline? && l.registers.Offline? && l.discreteInputs.Offline? && l.inputRegisters.Offline?
  }

  lemma PullOneTrue<T>(t: Table<T>, link: Link)
    ensures PullStep(t, link).1 >= 0 <==> link.Offline? || Readable(t, link)
    ensures PullStep(t, link).1 >= 0 ==> (Current(PullStep(t, link).0) <==> !link.Offline? || Current(t))
  {
    hide Clean, Mirrors;
    if !link.Offline? {
      hide PullStep, Readable;
      PullOne(t, link);
    }
  }

  lemma PushOneTrue<T>(t: Table<T>, link: Link)
    ensures PushStep(t, link).1 >= 0 <==> link.Offline? || Readable(t, link)
    ensures PushStep(t, link).1 >= 0 ==> (Current(PushStep(t, link).0) <==> !link.Offline? || Current(t))
  {
    hide Clean, Mirrors;
    if !link.Offline? {
      hide PushStep, Readable;
      PushOne(t, link);
    }
  }

  /**
   `updateBlockFromSlave` returns true exactly when every table was skipped,
   because the device was closed, or came over whole; and the four blocks then
   are the real slave's exactly when those that were skipped already were.
   */
  lemma PullAllTrueIff(s: Tables, l: Links)
    ensures var (s', ok) := PullAll(s, l);
            && (ok <==> (&& (l.coils.Offline? || Readable(s.coils, l.coils))
                         && (l.registers.Offline? || Readable(s.registers, l.registers))
                         && (l.discreteInputs.Offline? || Readable(s.discreteInputs, l.discreteInputs))
                         && (l.inputRegisters.Offline? || Readable(s.inputRegisters, l.inputRegisters))))
            && (ok ==> (AllCurrent(s') <==> (&& (l.coils.Offline? ==> Current(s.coils))
                                             && (l.registers.Offline? ==> Current(s.registers))
                                             && (l.discreteInputs.Offline? ==> Current(s.discreteInputs))
                                             && (l.inputRegisters.Offline? ==> Current(s.inputRegisters)))))
  {
    hide PullStep, Current, Readable;
    PullOneTrue(s.coils, l.coils);
    PullOneTrue(s.registers, l.registers);
    PullOneTrue(s.discreteInputs, l.discreteInputs);
    PullOneTrue(s.inputRegisters, l.inputRegisters);
  }

  ghost predicate AllCurrent(s: Tables) {
    Current(s.coils) && Current(s.registers) && Current(s.discreteInputs) && Current(s.inputRegisters)
  }

  /** The same for `updateSlaveFromBlock` and the two tables that can be written. */
  lemma PushAllTrueIff(s: Tables, l: Links)
    ensures var (s', ok) := PushAll(s, l);
            && (ok <==> (&& (l.coils.Offline? || Readable(s.coils, l.coils))
                         && (l.registers.Offline? || Readable(s.registers, l.registers))))
            && (ok ==> (OutputsCurrent(s') <==> (&& (l.coils.Offline? ==> Current(s.coils))
                                                 && (l.registers.Offline? ==> Current(s.registers)))))
  {
    hide PushStep, Current, Readable;
    PushOneTrue(s.coils, l.coils);
    PushOneTrue(s.registers, l.registers);
  }

  ghost predicate OutputsCurrent(s: Tables) {
    Current(s.coils) && Current(s.registers)
  }

  /**
   When the result of `updateBlockFromSlave` can be trusted: with the device
   open always; with the device closed, where it is true with nothing read,
   only if there was nothing to read.
   */
  lemma PullAllTruthfulIff(s: Tables, l: Links)
    requires Open(l) || Closed(l)
    ensures Closed(l) ==> PullAll(s, l) == (s, true)
    ensures var (s', ok) := PullAll(s, l);
            (ok ==> AllCurrent(s')) <==> Open(l) || AllCurrent(s)
  {
    hide Current, Readable;
    PullAllTrueIff(s, l);
  }

  /** Likewise for `updateSlaveFromBlock`. */
  lemma PushAllTruthfulIff(s: Tables, l: Links)
    requires Open(l) || Closed(l)
    ensures Closed(l) ==> PushAll(s, l) == (s, true)
    ensures var (s', ok) := PushAll(s, l);
            (ok ==> OutputsCurrent(s')) <==> Open(l) || OutputsCurrent(s)
  {
    hide Current, Readable;
    PushAllTrueIff(s, l);
  }

  ghost predicate AllClean(s: Tables) {
    Clean(s.coils) && Clean(s.registers) && Clean(s.discreteInputs) && Clean(s.inputRegisters)
  }

  /** The events that leave no element behind. */
  predicate SafeEvent(s: Tables, e: SlaveEvent) {
    match e
    case OnCoils(b) => Safe(s.coils, b)
    case OnDiscreteInputs(b) => Safe(s.discreteInputs, b)
    case OnRegisters(w) => Safe(s.registers, w)
    case OnInputRegisters(w) => Safe(s.inputRegisters, w)
    case PullTables(_) => true
    case PushTables(l) => Open(l) && PushAll(s, l).1
  }

  ghost predicate AllSafeEvents(s: Tables, es: seq<SlaveEvent>) {
    forall i :: 0 <= i < |es| ==> SafeEvent(SlaveRun(s, es[..i]), es[i])
  }

  lemma PullStaysClean<T>(t: Table<T>, link: Link)
    requires Clean(t)
    ensures Clean(PullStep(t, link).0)
  {
    SafeStepStaysClean(t, Event(Pull, link));
  }

  lemma SafeEventStaysClean(s: Tables, e: SlaveEvent)
    requires AllClean(s) && SafeEvent(s, e)
    ensures AllClean(SlaveStep(s, e))
  {
    hide Clean, Step, PullStep, PushStep, Safe, Current, Readable;
    match e
    case OnCoils(b) => SafeStepStaysClean(s.coils, b);
    case OnDiscreteInputs(b) => SafeStepStaysClean(s.discreteInputs, b);
    case OnRegisters(w) => SafeStepStaysClean(s.registers, w);
    case OnInputRegisters(w) => SafeStepStaysClean(s.inputRegisters, w);
    case PullTables(l) =>
      PullStaysClean(s.coils, l.coils);
      PullStaysClean(s.registers, l.registers);
      PullStaysClean(s.discreteInputs, l.discreteInputs);
      PullStaysClean(s.inputRegisters, l.inputRegisters);
    case PushTables(l) => PushAllMirrors(s, l);
  }

  lemma {:induction false} SafeEventsStayClean(s: Tables, es: seq<SlaveEvent>)
    requires AllClean(s) && AllSafeEvents(s, es)
    ensures AllClean(SlaveRun(s, es))
  {
    hide AllClean, SafeEvent, SlaveStep;
    if es == [] {
    } else {
      var init := es[..|es| - 1];
      assert forall i :: 0 <= i < |init| ==> init[..i] == es[..i];
      SafeEventsStayClean(s, init);
      assert SafeEvent(SlaveRun(s, init), es[|es| - 1]);
      SafeEventStaysClean(SlaveRun(s, init), es[|es| - 1]);
    }
  }

  lemma CleanIsCurrent<T>(t: Table<T>)
    requires Coherent(t) && Clean(t)
    ensures Current(t)
  {
    if t.cells != [] {
      CleanMirrors(t);
    }
  }

  /**
   The cache law for the whole slave. After a full update from an open device
   and any run of operations on any tables, blocks and real slave differ in
   dirty elements only; and nowhere if no event left an element behind.
   */
  lemma CoherenceAfterPullAll(s: Tables, l: Links, es: seq<SlaveEvent>)
    requires Open(l) && PullAll(s, l).1
    ensures AllCoherent(SlaveRun(PullAll(s, l).0, es))
    ensures AllSafeEvents(PullAll(s, l).0, es) ==> AllCurrent(SlaveRun(PullAll(s, l).0, es))
  {
    hide PullAll, SlaveRun, Clean, Current, Coherent, Readable, AllSafeEvents;
    PullAllMirrors(s, l);
    var s1 := PullAll(s, l).0;
    MirrorIsCoherent(s1.coils);
    MirrorIsCoherent(s1.registers);
    MirrorIsCoherent(s1.discreteInputs);
    MirrorIsCoherent(s1.inputRegisters);
    SlaveRunKeepsCoherence(s1, es);
    if AllSafeEvents(s1, es) {
      SafeEventsStayClean(s1, es);
      var s2 := SlaveRun(s1, es);
      CleanIsCurrent(s2.coils);
      CleanIsCurrent(s2.registers);
      CleanIsCurrent(s2.discreteInputs);
      CleanIsCurrent(s2.inputRegisters);
    }
  }

  lemma MirrorIsCoherent<T>(t: Table<T>)
    requires MirrorsOrEmpty(t)
    ensures Coherent(t)
  {
  }

  // ----- the history of one table -----

  datatype Option<T> = None | Some(value: T)

  function CoilsOf(s: Tables): Table<bool> {
    s.coils
  }

  function RegistersOf(s: Tables): Table<word> {
    s.registers
  }

  function DiscreteInputsOf(s: Tables): Table<bool> {
    s.discreteInputs
  }

  function InputRegistersOf(s: Tables): Table<word> {
    s.inputRegisters
  }

  /** What one event means for the coils: an operation on them, or nothing. */
  function CoilEvent(s: Tables, e: SlaveEvent): Option<Event<bool>> {
    match e
    case OnCoils(b) => Some(b)
    case PullTables(l) => Some(Event(Pull, l.coils))
    case PushTables(l) => Some(Event(Push, l.coils))
    case _ => None
  }

  /** Likewise for holding registers, which a full update reaches when the coils went well. */
  function RegisterEvent(s: Tables, e: SlaveEvent): Option<Event<word>> {
    match e
    case OnRegisters(w) => Some(w)
    case PullTables(l) => if PullStep(s.coils, l.coils).1 >= 0 then Some(Event(Pull, l.registers)) else None
    case PushTables(l) => if PushStep(s.coils, l.coils).1 >= 0 then Some(Event(Push, l.registers)) else None
    case _ => None
  }

  function DiscreteInputEvent(s: Tables, e: SlaveEvent): Option<Event<bool>> {
    match e
    case OnDiscreteInputs(b) => Some(b)
    case PullTables(l) =>
      if PullStep(s.coils, l.coils).1 >= 0 && PullStep(s.registers, l.registers).1 >= 0
      then Some(Event(Pull, l.discreteInputs)) else None
    case _ => None
  }

  function InputRegisterEvent(s: Tables, e: SlaveEvent): Option<Event<word>> {
    match e
    case OnInputRegisters(w) => Some(w)
    case PullTables(l) =>
      if && PullStep(s.coils, l.coils).1 >= 0 && PullStep(s.registers, l.registers).1 >= 0
         && PullStep(s.discreteInputs, l.discreteInputs).1 >= 0
      then Some(Event(Pull, l.inputRegisters)) else None
    case _ => None
  }

  function Played<T>(t: Table<T>, e: Option<Event<T>>): Table<T> {
    if e.None? then t else Step(t, e.value).0
  }

  /** What one table lives through in a run of the whole slave. */
  function History<T(!new)>(s: Tables, es: seq<SlaveEvent>, part: (Tables, SlaveEvent) -> Option<Event<T>>)
    : seq<Event<T>>
  {
    if es == [] then []
    else
      var init := es[..|es| - 1];
      var e := part(SlaveRun(s, init), es[|es| - 1]);
      History(s, init, part) + if e.None? then [] else [e.value]
  }

  /** `part` tells what every event means for the table that `table` picks. */
  ghost predicate Plays<T(!new)>(table: Tables -> Table<T>, part: (Tables, SlaveEvent) -> Option<Event<T>>) {
    forall s, e :: table(SlaveStep(s, e)) == Played(table(s), part(s, e))
  }

  lemma EachPlays()
    ensures Plays(CoilsOf, CoilEvent)
    ensures Plays(RegistersOf, RegisterEvent)
    ensures Plays(DiscreteInputsOf, DiscreteInputEvent)
    ensures Plays(InputRegistersOf, InputRegisterEvent)
  {
    hide PullStep, PushStep;
  }

  lemma RunNext<T>(t: Table<T>, es: seq<Event<T>>, e: Event<T>)
    ensures Run(t, es + [e]) == Step(Run(t, es), e).0
  {
    assert (es + [e])[..|es|] == es;
  }

  /** Each table of a slave goes through its own history and through nothing else. */
  lemma {:induction false} HistoryIsRun<T(!new)>(s: Tables, es: seq<SlaveEvent>, table: Tables -> Table<T>,
                                                 part: (Tables, SlaveEvent) -> Option<Event<T>>)
    requires Plays(table, part)
    ensures table(SlaveRun(s, es)) == Run(table(s), History(s, es, part))
  {
    hide SlaveStep, Step;
    if es == [] {
    } else {
      var init, last := es[..|es| - 1], es[|es| - 1];
      HistoryIsRun(s, init, table, part);
      var h, e := History(s, init, part), part(SlaveRun(s, init), last);
      assert table(SlaveStep(SlaveRun(s, init), last)) == Played(table(SlaveRun(s, init)), e);
      if e.Some? {
        RunNext(table(s), h, e.value);
      } else {
        assert h + [] == h;
      }
    }
  }

  /** The event, as the table meets it, leaves element `i` behind. */
  predicate LeavesIn<T>(t: Table<T>, e: Option<Event<T>>, i: int) {
    e.Some? && Leaves(t, e.value, i)
  }

  /** Some event of the run is the cause of element `i` of the table being behind. */
  ghost predicate SlaveHasCause<T(!new)>(s: Tables, es: seq<SlaveEvent>, table: Tables -> Table<T>,
                                         part: (Tables, SlaveEvent) -> Option<Event<T>>, i: int)
  {
    exists k :: 0 <= k < |es|
             && LeavesIn(table(SlaveRun(s, es[..k])), part(SlaveRun(s, es[..k]), es[k]), i)
  }

  lemma {:induction false} SlaveDirtyHasCause<T(!new)>(s: Tables, es: seq<SlaveEvent>, table: Tables -> Table<T>,
                                                       part: (Tables, SlaveEvent) -> Option<Event<T>>, i: int)
    requires Plays(table, part) && Clean(table(s))
    requires 0 <= i < |table(SlaveRun(s, es)).cells| && i in table(SlaveRun(s, es)).dirty
    ensures SlaveHasCause(s, es, table, part, i)
  {
    hide SlaveStep, Step, Leaves;
    if es == [] {
    } else {
      var n := |es| - 1;
      var init := es[..n];
      var before := SlaveRun(s, init);
      var t, e := table(before), part(before, es[n]);
      assert table(SlaveStep(before, es[n])) == Played(t, e);
      if e.Some? {
        StepLeaves(t, e.value, i);
      }
      if !LeavesIn(t, e, i) {
        SlaveDirtyHasCause(s, init, table, part, i);
        var k :| 0 <= k < n && LeavesIn(table(SlaveRun(s, init[..k])), part(SlaveRun(s, init[..k]), init[k]), i);
        assert init[..k] == es[..k];
      }
    }
  }

  /** Element `i` of the block is not the real slave's. */
  predicate Behind<T(==)>(t: Table<T>, i: int) {
    0 <= i < |t.cells| && !(0 <= t.start + i < |t.far| && t.cells[i] == t.far[t.start + i])
  }

  lemma BehindHasCause<T(!new)>(s: Tables, es: seq<SlaveEvent>, table: Tables -> Table<T>,
                                part: (Tables, SlaveEvent) -> Option<Event<T>>, i: int)
    requires Plays(table, part) && Clean(table(s)) && Coherent(table(SlaveRun(s, es)))
    requires Behind(table(SlaveRun(s, es)), i)
    ensures SlaveHasCause(s, es, table, part, i)
  {
    hide Clean, Plays;
    SlaveDirtyHasCause(s, es, table, part, i);
  }

  /**
   Where any table of a slave is behind after a full update from an open device
   and any run of operations on any tables, some event of that run wrote the
   very element unanswered, locally or offline, or gave the block new limits.
   */
  lemma SlaveDifferenceHasCause(s: Tables, l: Links, es: seq<SlaveEvent>, i: int)
    requires Open(l) && PullAll(s, l).1
    ensures var s1 := PullAll(s, l).0;
            var s2 := SlaveRun(s1, es);
            && (Behind(s2.coils, i) ==> SlaveHasCause(s1, es, CoilsOf, CoilEvent, i))
            && (Behind(s2.registers, i) ==> SlaveHasCause(s1, es, RegistersOf, RegisterEvent, i))
            && (Behind(s2.discreteInputs, i) ==> SlaveHasCause(s1, es, DiscreteInputsOf, DiscreteInputEvent, i))
            && (Behind(s2.inputRegisters, i) ==> SlaveHasCause(s1, es, InputRegistersOf, InputRegisterEvent, i))
  {
    hide PullAll, SlaveRun, Clean, Current, Coherent, Readable, Plays, Behind, SlaveHasCause;
    PullAllMirrors(s, l);
    CoherenceAfterPullAll(s, l, es);
    EachPlays();
    var s1 := PullAll(s, l).0;
    var s2 := SlaveRun(s1, es);
    if Behind(s2.coils, i) {
      BehindHasCause(s1, es, CoilsOf, CoilEvent, i);
    }
    if Behind(s2.registers, i) {
      BehindHasCause(s1, es, RegistersOf, RegisterEvent, i);
    }
    if Behind(s2.discreteInputs, i) {
      BehindHasCause(s1, es, DiscreteInputsOf, DiscreteInputEvent, i);
    }
    if Behind(s2.inputRegisters, i) {
      BehindHasCause(s1, es, InputRegistersOf, InputRegisterEvent, i);
    }
  }

  // ----- the whole slave with the device closed -----

  predicate ClosedEvent(e: SlaveEvent) {
    match e
    case OnCoils(b) => b.link.Offline?
    case OnDiscreteInputs(b) => b.link.Offline?
    case OnRegisters(w) => w.link.Offline?
    case OnInputRegisters(w) => w.link.Offline?
    case PullTables(l) => Closed(l)
    case PushTables(l) => Closed(l)
  }

  ghost predicate StaysClosed<T(!new)>(part: (Tables, SlaveEvent) -> Option<Event<T>>) {
    forall s, e :: ClosedEvent(e) && part(s, e).Some? ==> part(s, e).value.link.Offline?
  }

  lemma {:induction false} ClosedHistory<T(!new)>(s: Tables, es: seq<SlaveEvent>,
                                                  part: (Tables, SlaveEvent) -> Option<Event<T>>)
    requires StaysClosed(part) && forall e :: e in es ==> ClosedEvent(e)
    ensures forall e :: e in History(s, es, part) ==> e.link.Offline?
  {
    hide ClosedEvent, SlaveRun;
    if es == [] {
    } else {
      ClosedHistory(s, es[..|es| - 1], part);
    }
  }

  lemma ClosedTableIsMemory<T(!new)>(s: Tables, es: seq<SlaveEvent>, table: Tables -> Table<T>,
                                     part: (Tables, SlaveEvent) -> Option<Event<T>>)
    requires Plays(table, part) && StaysClosed(part) && forall e :: e in es ==> ClosedEvent(e)
    ensures AsMemory(table(SlaveRun(s, es))) == MemoryRun(table(s), History(s, es, part))
  {
    hide ClosedEvent, SlaveRun, Run, AsMemory, MemoryRun;
    HistoryIsRun(s, es, table, part);
    ClosedHistory(s, es, part);
    RunIsMemoryRun(table(s), History(s, es, part));
  }

  /** Over every run with the device closed, full updates included, the four blocks are four address maps. */
  lemma ClosedSlaveIsMemory(s: Tables, es: seq<SlaveEvent>)
    requires forall e :: e in es ==> ClosedEvent(e)
    ensures var s' := SlaveRun(s, es);
            && AsMemory(s'.coils) == MemoryRun(s.coils, History(s, es, CoilEvent))
            && AsMemory(s'.registers) == MemoryRun(s.registers, History(s, es, RegisterEvent))
            && AsMemory(s'.discreteInputs) == MemoryRun(s.discreteInputs, History(s, es, DiscreteInputEvent))
            && AsMemory(s'.inputRegisters) == MemoryRun(s.inputRegisters, History(s, es, InputRegisterEvent))
  {
    hide SlaveRun, AsMemory, MemoryRun, Plays, History;
    EachPlays();
    ClosedTableIsMemory(s, es, CoilsOf, CoilEvent);
    ClosedTableIsMemory(s, es, RegistersOf, RegisterEvent);
    ClosedTableIsMemory(s, es, DiscreteInputsOf, DiscreteInputEvent);
    ClosedTableIsMemory(s, es, InputRegistersOf, InputRegisterEvent);
  }
}
