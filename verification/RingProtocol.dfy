/** One blocking reader, one blocking writer and a source of signals on a ring, interleaved at
    every access to shared state.

    The only compound step is the one that records a thread as the owner of a notifier and takes
    it off the run queue.  `Next` is total: an event that is not enabled leaves the state alone,
    so a run is any sequence of events. */
module RingProtocol {
  import opened Memory
  import B = RingBuffer

  /** Where the reader is inside ring_getc, thread_wait_io and pipe_vnode_read. */
  datatype Reader =
    | RIdle
    | RTop     // head of ring_getc's loop: are BRK or EOF up?
    | RDrain   // they are: is anything left to read?
    | RTest    // emptiness test
    | RWait    // head of thread_wait_io's loop
    | RAsleep
    | RWoken   // back on the run queue
    | RTake    // about to take a byte
    | RTell    // about to notify the writer
    | RRet     // pipe_vnode_read's test for a finished write: is the ring empty,
    | RFlag    //   and is RET up?

  /** Where the writer is inside ring_putc, thread_wait_io and pipe_vnode_write. */
  datatype Writer =
    | WIdle
    | WTop     // fullness test of ring_putc
    | WFull    // end-of-stream test before waiting
    | WWait
    | WAsleep
    | WWoken
    | WLast    // end-of-stream test before storing
    | WPut
    | WTell    // about to notify the reader
    | WRet     // ring_signal(RET): set the flag,
    | WRetR    //   notify the reader,
    | WRetW    //   notify the writer

  /** A signal in progress: flag already set, notifications still to come. */
  datatype Signaller = SIdle | SReader | SWriter

  datatype Signal = Brk | Eof

  /** struct io_notify: a count of notifications not yet consumed, and whether a thread sleeps on it. */
  datatype Notifier = Notifier(value: int, owned: bool)

  datatype State = State(
    ring: B.Ring, brk: bool, eof: bool, ret: bool,
    rWait: Notifier, wWait: Notifier,
    reader: Reader, rem: int, writer: Writer, out: seq<byte>, signaller: Signaller,
    accepted: seq<byte>, delivered: seq<byte>)

  datatype Event = StartRead(n: int) | StartWrite(buf: seq<byte>) | ReaderStep | WriterStep | Raise(sig: Signal) | SignalStep

  function Init(base: seq<byte>): State {
    State(B.Ring(base, 0, 0), false, false, false, Notifier(0, false), Notifier(0, false), RIdle, 0, WIdle, [], SIdle, [], [])
  }

  // ---------------------------------------------------------------- steps

  /** thread_notify_io on the reader's notifier. */
  function NotifyReader(s: State): State {
    s.(rWait := Notifier(s.rWait.value + 1, false),
       reader := if s.rWait.owned && s.reader.RAsleep? then RWoken else s.reader)
  }

  /** thread_notify_io on the writer's notifier. */
  function NotifyWriter(s: State): State {
    s.(wWait := Notifier(s.wWait.value + 1, false),
       writer := if s.wWait.owned && s.writer.WAsleep? then WWoken else s.writer)
  }

  /** ring_getc with err = 0, inside the loop of pipe_vnode_read. */
  function StepReader(s: State): State
    requires B.Valid(s.ring)
  {
    match s.reader
    case RIdle => s
    case RTop =>
      if s.rem <= 0 then s.(reader := RIdle)
      else s.(reader := if s.brk || s.eof then RDrain else RTest)
    case RDrain => if B.Readable(s.ring) == 0 then s.(brk := false, reader := RIdle) else s.(reader := RTest)
    case RTest => if B.Readable(s.ring) == 0 then s.(reader := RWait) else s.(reader := RTake)
    case RWait =>
      if s.rWait.value > 0 then s.(rWait := s.rWait.(value := 0), reader := RTop)
      else s.(rWait := s.rWait.(owned := true), reader := RAsleep)
    case RAsleep => s
    case RWoken => s.(rWait := s.rWait.(owned := false), reader := RWait)
    case RTake =>
      s.(ring := B.Take(s.ring), delivered := s.delivered + [s.ring.base[s.ring.rd]], rem := s.rem - 1, reader := RTell)
    case RTell => NotifyWriter(s).(reader := RRet)
    case RRet => s.(reader := if B.Readable(s.ring) == 0 then RFlag else RTop)
    case RFlag => if s.ret then s.(ret := false, reader := RIdle) else s.(reader := RTop)
  }

  /** ring_putc with wait = 1, inside the loop of ring_write and pipe_vnode_write. */
  function StepWriter(s: State): State
    requires B.Valid(s.ring)
  {
    match s.writer
    case WIdle => s
    case WTop =>
      if s.out == [] then s.(writer := WRet)
      else if B.Writable(s.ring) == 0 then s.(writer := WFull) else s.(writer := WLast)
    case WFull => if s.eof then s.(writer := WIdle) else s.(writer := WWait)
    case WWait =>
      if s.wWait.value > 0 then s.(wWait := s.wWait.(value := 0), writer := WTop)
      else s.(wWait := s.wWait.(owned := true), writer := WAsleep)
    case WAsleep => s
    case WWoken => s.(wWait := s.wWait.(owned := false), writer := WWait)
    case WLast => if s.eof then s.(writer := WIdle) else s.(writer := WPut)
    case WPut =>
      if s.out == [] then s
      else s.(ring := B.Put(s.ring, s.out[0]), accepted := s.accepted + [s.out[0]], out := s.out[1..], writer := WTell)
    case WTell => NotifyReader(s).(writer := WTop)
    case WRet => s.(ret := true, writer := WRetR)
    case WRetR => NotifyReader(s).(writer := WRetW)
    case WRetW => NotifyWriter(s).(writer := WIdle)
  }

  function Next(s: State, e: Event): State
    requires B.Valid(s.ring)
  {
    match e
    case StartRead(n) => if s.reader == RIdle then s.(rem := n, reader := RTop) else s
    case StartWrite(buf) => if s.writer == WIdle && buf != [] then s.(out := buf, writer := WTop) else s
    case ReaderStep => StepReader(s)
    case WriterStep => StepWriter(s)
    case Raise(sig) =>
      if s.signaller != SIdle then s
      else if sig == Brk then s.(brk := true, signaller := SReader) else s.(eof := true, signaller := SReader)
    case SignalStep =>
      match s.signaller
      case SIdle => s
      case SReader => NotifyReader(s).(signaller := SWriter)
      case SWriter => NotifyWriter(s).(signaller := SIdle)
  }

  // ---------------------------------------------------------------- the invariant

  /** A notification of the reader is on its way. */
  predicate ReaderPending(s: State) { s.rWait.value > 0 || s.writer.WTell? || s.signaller == SReader }

  predicate WriterPending(s: State) { s.wWait.value > 0 || s.reader.RTell? || s.signaller != SIdle }

  predicate HasWork(s: State)
    requires B.Valid(s.ring)
  {
    B.Contents(s.ring) != [] || s.brk || s.eof
  }

  predicate HasRoom(s: State)
    requires B.Valid(s.ring)
  {
    |B.Contents(s.ring)| < |s.ring.base| - 1
  }

  /** Nothing is lost, duplicated or reordered, and one slot stays free. */
  ghost predicate Fifo(s: State) {
    && B.Valid(s.ring)
    && s.accepted == s.delivered + B.Contents(s.ring)
    && |B.Contents(s.ring)| <= |s.ring.base| - 1
    && (s.reader.RTake? ==> B.Contents(s.ring) != []) && (s.reader.RDrain? ==> s.brk || s.eof)
    && (s.writer.WLast? || s.writer.WPut? ==> HasRoom(s) && s.out != [])
  }

  /** An owner is recorded exactly while its thread sleeps, and a woken thread was notified. */
  ghost predicate Owners(s: State) {
    && s.rWait.value >= 0 && (s.rWait.owned <==> s.reader.RAsleep?) && (s.reader.RWoken? ==> s.rWait.value > 0)
    && s.wWait.value >= 0 && (s.wWait.owned <==> s.writer.WAsleep?) && (s.writer.WWoken? ==> s.wWait.value > 0)
    && (s.writer.WFull? || s.writer.WWait? || s.writer.WAsleep? || s.writer.WWoken? ==> s.out != [])
  }

  /** A reader on its way to sleep although there is work will be notified. */
  ghost predicate ReaderWakes(s: State) {
    && B.Valid(s.ring)
    && (s.reader.RTest? && B.Contents(s.ring) == [] && (s.brk || s.eof) ==> ReaderPending(s))
    && (s.reader.RWait? && HasWork(s) ==> ReaderPending(s))
    && (s.reader.RWait? && B.Contents(s.ring) != [] ==> s.rWait.value > 0 || s.writer.WTell?)
    && (s.reader.RAsleep? && HasWork(s) ==> s.writer.WTell? || s.signaller == SReader)
    && (s.reader.RAsleep? && B.Contents(s.ring) != [] ==> s.writer.WTell?)
  }

  /** A writer on its way to sleep although it could go on will be notified. */
  ghost predicate WriterWakes(s: State) {
    && B.Valid(s.ring)
    && ((s.writer.WFull? || s.writer.WWait?) && HasRoom(s) ==> s.wWait.value > 0 || s.reader.RTell?)
    && (s.writer.WWait? && s.eof ==> WriterPending(s))
    && (s.writer.WAsleep? && HasRoom(s) ==> s.reader.RTell?)
    && (s.writer.WAsleep? && s.eof ==> s.reader.RTell? || s.signaller != SIdle)
  }

  ghost predicate Inv(s: State) { Fifo(s) && Owners(s) && ReaderWakes(s) && WriterWakes(s) }

  lemma InvInit(base: seq<byte>)
    requires |base| > 0
    ensures Inv(Init(base))
  {
  }

  lemma FifoReader(s: State)
    requires Fifo(s)
    ensures Fifo(StepReader(s)) && |StepReader(s).ring.base| == |s.ring.base|
  {
    hide B.Contents, B.Readable, B.Writable, B.Take;
    match s.reader
    case RTake => B.TakeRemoves(s.ring);
    case RIdle => case RTop => case RDrain => case RTest => case RWait => case RAsleep => case RWoken => case RTell => case RRet => case RFlag =>
  }

  lemma ReaderWakesReader(s: State)
    requires Fifo(s) && Owners(s) && ReaderWakes(s)
    ensures B.Valid(StepReader(s).ring) && ReaderWakes(StepReader(s))
  {
    hide B.Valid, B.Contents, B.Readable, B.Writable, B.Take;
    match s.reader
    case RTake => B.TakeRemoves(s.ring);
    case RIdle => case RTop => case RDrain => case RTest => case RWait => case RAsleep => case RWoken => case RTell => case RRet => case RFlag =>
  }

  lemma WriterWakesReader(s: State)
    requires Fifo(s) && Owners(s) && WriterWakes(s)
    ensures B.Valid(StepReader(s).ring) && WriterWakes(StepReader(s))
  {
    hide B.Valid, B.Contents, B.Readable, B.Writable, B.Take;
    match s.reader
    case RTake => B.TakeRemoves(s.ring);
    case RIdle => case RTop => case RDrain => case RTest => case RWait => case RAsleep => case RWoken => case RTell => case RRet => case RFlag =>
  }

  lemma InvReader(s: State)
    requires Inv(s)
    ensures Inv(StepReader(s)) && |StepReader(s).ring.base| == |s.ring.base|
  {
    hide B.Valid, B.Contents, B.Readable, B.Writable, B.Take, Fifo, ReaderWakes, WriterWakes;
    FifoReader(s);
    ReaderWakesReader(s);
    WriterWakesReader(s);
    match s.reader
    case RTake =>
    case RIdle => case RTop => case RDrain => case RTest => case RWait => case RAsleep => case RWoken => case RTell => case RRet => case RFlag =>
  }

  lemma FifoWriter(s: State)
    requires Fifo(s)
    ensures Fifo(StepWriter(s)) && |StepWriter(s).ring.base| == |s.ring.base|
  {
    hide B.Contents, B.Readable, B.Writable, B.Put;
    match s.writer
    case WPut => B.PutAppends(s.ring, s.out[0]);
    case WIdle => case WTop => case WFull => case WWait => case WAsleep => case WWoken =>
    case WLast => case WTell => case WRet => case WRetR => case WRetW =>
  }

  lemma ReaderWakesWriter(s: State)
    requires Fifo(s) && Owners(s) && ReaderWakes(s)
    ensures B.Valid(StepWriter(s).ring) && ReaderWakes(StepWriter(s))
  {
    hide B.Valid, B.Contents, B.Readable, B.Writable, B.Put;
    match s.writer
    case WPut => B.PutAppends(s.ring, s.out[0]);
    case WIdle => case WTop => case WFull => case WWait => case WAsleep => case WWoken =>
    case WLast => case WTell => case WRet => case WRetR => case WRetW =>
  }

  lemma WriterWakesWriter(s: State)
    requires Fifo(s) && Owners(s) && WriterWakes(s)
    ensures B.Valid(StepWriter(s).ring) && WriterWakes(StepWriter(s))
  {
    hide B.Valid, B.Contents, B.Readable, B.Writable, B.Put;
    match s.writer
    case WPut => B.PutAppends(s.ring, s.out[0]);
    case WIdle => case WTop => case WFull => case WWait => case WAsleep => case WWoken =>
    case WLast => case WTell => case WRet => case WRetR => case WRetW =>
  }

  lemma InvWriter(s: State)
    requires Inv(s)
    ensures Inv(StepWriter(s)) && |StepWriter(s).ring.base| == |s.ring.base|
  {
    hide B.Valid, B.Contents, B.Readable, B.Writable, B.Put, Fifo, ReaderWakes, WriterWakes;
    FifoWriter(s);
    ReaderWakesWriter(s);
    WriterWakesWriter(s);
    match s.writer
    case WPut =>
    case WIdle => case WTop => case WFull => case WWait => case WAsleep => case WWoken =>
    case WLast => case WTell => case WRet => case WRetR => case WRetW =>
  }

  /** Every event of every thread keeps the invariant. */
  lemma InvNext(s: State, e: Event)
    requires Inv(s)
    ensures Inv(Next(s, e)) && |Next(s, e).ring.base| == |s.ring.base|
  {
    hide Inv, StepReader, StepWriter;
    match e
    case ReaderStep => InvReader(s);
    case WriterStep => InvWriter(s);
    case SignalStep => InvSignal(s);
    case StartRead(_) => InvCall(s, e);
    case StartWrite(_) => InvCall(s, e);
    case Raise(_) => InvCall(s, e);
  }

  lemma InvCall(s: State, e: Event)
    requires Inv(s) && (e.StartRead? || e.StartWrite? || e.Raise?)
    ensures Inv(Next(s, e)) && Next(s, e).ring == s.ring
  {
    hide B.Contents, StepReader, StepWriter;
    if e.StartRead? {
    } else if e.StartWrite? {
    } else if e.sig == Brk {
    } else {
    }
  }

  lemma InvSignal(s: State)
    requires Inv(s)
    ensures Inv(Next(s, SignalStep)) && Next(s, SignalStep).ring == s.ring
  {
    hide B.Contents;
    match s.signaller { case SIdle => case SReader => case SWriter => }
  }

  ghost function Run(s: State, es: seq<Event>): (t: State)
    requires Inv(s)
    ensures Inv(t) && |t.ring.base| == |s.ring.base|
    decreases |es|
  {
    if es == [] then s
    else
      var t := Run(s, es[..|es| - 1]);
      InvNext(t, es[|es| - 1]);
      Next(t, es[|es| - 1])
  }

  // ---------------------------------------------------------------- what holds in every interleaving

  /** In every reachable state the bytes delivered are a prefix of the bytes accepted, at most
      cap - 1 bytes are buffered, and a thread that sleeps with nothing on its way to wake it has
      nothing to do: the reader sees an empty ring and no end of stream, the writer a full ring. */
  lemma EveryInterleaving(base: seq<byte>, es: seq<Event>)
    requires |base| > 0
    ensures Inv(Init(base))
    ensures var s := Run(Init(base), es);
      && s.delivered <= s.accepted && |s.accepted| - |s.delivered| <= |base| - 1
      && s.accepted == s.delivered + B.Contents(s.ring)
      && (s.reader.RAsleep? && !s.writer.WTell? ==> B.Contents(s.ring) == [])
      && (s.reader.RAsleep? && !s.writer.WTell? && s.signaller != SReader ==> !s.eof && !s.brk)
      && (s.writer.WAsleep? && !s.reader.RTell? ==> |B.Contents(s.ring)| == |base| - 1)
      && (s.writer.WAsleep? && !s.reader.RTell? && s.signaller == SIdle ==> !s.eof)
  {
    InvInit(base);
  }

  ghost predicate Stuck(s: State) { s.reader.RAsleep? && s.writer.WAsleep? }

  /** A ring of one slot holds no byte: this run puts both sides to sleep. */
  lemma StuckRun(base: seq<byte>)
    requires |base| == 1
    ensures Inv(Init(base)) && exists es :: Stuck(Run(Init(base), es))
  {
    hide Inv, Run;
    InvInit(base);
    var s := Init(base);
    var es: seq<Event> := [];
    RunNone(s);
    es := ReaderSleeps(s, es);
    es := WriterSleeps(s, es);
    assert Stuck(Run(s, es));
  }

  lemma RunNone(s: State)
    requires Inv(s)
    ensures Run(s, []) == s
  {
  }

  lemma ReaderSleeps(s: State, es: seq<Event>) returns (r: seq<Event>)
    requires Inv(s) && var t := Run(s, es); t.reader.RIdle? && !t.brk && !t.eof && t.rWait.value == 0 && B.Readable(t.ring) == 0
    ensures Run(s, r) == Run(s, es).(reader := RAsleep, rem := 1, rWait := Notifier(0, true))
  {
    hide Inv, Run, B.Readable, B.Writable;
    var t := Run(s, es);
    r := Then(s, es, StartRead(1));
    r := Then(s, r, ReaderStep);
    assert Run(s, r) == t.(reader := RTest, rem := 1);
    r := Then(s, r, ReaderStep);
    r := Then(s, r, ReaderStep);
  }

  lemma WriterSleeps(s: State, es: seq<Event>) returns (r: seq<Event>)
    requires Inv(s) && var t := Run(s, es); t.writer.WIdle? && !t.eof && t.wWait.value == 0 && B.Writable(t.ring) == 0
    ensures Run(s, r) == Run(s, es).(writer := WAsleep, out := [0], wWait := Notifier(0, true))
  {
    hide Inv, Run, B.Readable, B.Writable;
    var t := Run(s, es);
    r := Then(s, es, StartWrite([0]));
    r := Then(s, r, WriterStep);
    assert Run(s, r) == t.(writer := WFull, out := [0]);
    r := Then(s, r, WriterStep);
    r := Then(s, r, WriterStep);
  }

  lemma Then(s: State, es: seq<Event>, e: Event) returns (r: seq<Event>)
    requires Inv(s)
    ensures r == es + [e] && Run(s, r) == Next(Run(s, es), e)
  {
    r := es + [e];
    assert r[..|es|] == es;
  }

  /** Reader and writer never sleep at once in any run exactly when the ring has room for a byte. */
  lemma NeverStuckIff(base: seq<byte>)
    requires |base| > 0
    ensures Inv(Init(base))
    ensures (forall es :: !Stuck(Run(Init(base), es))) <==> |base| >= 2
  {
    InvInit(base);
    if |base| == 1 {
      StuckRun(base);
    } else {
      forall es ensures !Stuck(Run(Init(base), es)) { EveryInterleaving(base, es); }
    }
  }

  /** A run stands still only when it should: everybody is done, or the reader waits on a drained
      ring for a writer that is done, or the writer waits on a full ring for a reader that is done. */
  lemma StandsStill(base: seq<byte>, es: seq<Event>)
    requires |base| >= 2
    ensures Inv(Init(base))
    ensures var s := Run(Init(base), es);
      StepReader(s) == s && StepWriter(s) == s && s.signaller == SIdle ==>
        || (s.reader.RIdle? && s.writer.WIdle?)
        || (s.reader.RAsleep? && s.writer.WIdle? && s.delivered == s.accepted && !s.eof && !s.brk)
        || (s.writer.WAsleep? && s.reader.RIdle? && |s.accepted| - |s.delivered| == |base| - 1 && !s.eof)
  {
    hide Run, StepReader, StepWriter, B.Contents;
    EveryInterleaving(base, es);
    var s := Run(Init(base), es);
    if StepReader(s) == s && StepWriter(s) == s { StillPlaces(s); }
  }

  lemma StillPlaces(s: State)
    requires Inv(s) && StepReader(s) == s && StepWriter(s) == s
    ensures (s.reader.RIdle? || s.reader.RAsleep?) && (s.writer.WIdle? || s.writer.WAsleep?)
  {
    hide B.Contents, B.Readable, B.Writable, B.Take, B.Put, ReaderWakes, WriterWakes;
  }

  /** The reader fails only on an empty ring: whatever was accepted has been delivered by then. */
  lemma DrainsBeforeFailing(s: State)
    requires Inv(s) && s.reader.RDrain? && StepReader(s).reader == RIdle
    ensures s.delivered == s.accepted && (s.eof || s.brk)
  {
  }

  /** After end of stream nothing more is accepted, except a byte already past its last test. */
  lemma {:induction false} ClosedForWriting(s: State, es: seq<Event>)
    requires Inv(s) && s.eof && !s.writer.WPut?
    ensures var t := Run(s, es); t.accepted == s.accepted && t.eof && !t.writer.WPut?
    decreases |es|
  {
    hide Inv, Next;
    if es != [] {
      ClosedForWriting(s, es[..|es| - 1]);
      ClosedStep(Run(s, es[..|es| - 1]), es[|es| - 1]);
    }
  }

  lemma ClosedStep(s: State, e: Event)
    requires Inv(s) && s.eof && !s.writer.WPut?
    ensures var t := Next(s, e); t.accepted == s.accepted && t.eof && !t.writer.WPut?
  {
    hide ReaderWakes, WriterWakes, Owners, B.Contents, B.Readable, B.Writable, B.Put, B.Take;
    match e
    case ReaderStep =>
      match s.reader {
        case RIdle => case RTop => case RDrain => case RTest => case RWait => case RAsleep =>
        case RWoken => case RTake => case RTell => case RRet => case RFlag =>
      }
    case WriterStep =>
    case StartRead(_) => case StartWrite(_) => case Raise(_) => case SignalStep =>
  }
}
