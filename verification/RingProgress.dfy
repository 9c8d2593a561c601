/** Reader, writer and signaller come to rest: a weight of the state falls with every step that does
    anything, so no schedule can keep them busy without moving bytes. */
module RingProgress {
  import opened Memory
  import opened RingProtocol
  import B = RingBuffer

  // ---------------------------------------------------------------- the weight

  /** What a byte, a notification of the reader and one of the writer can still cause. */
  const BYTE := 12
  const READER_NOTE := 5
  const WRITER_NOTE := 3

  function ReaderWeight(r: Reader): nat {
    match r
    case RIdle => 0 case RAsleep => 0 case RWait => 1 case RWoken => 2 case RTake => 2 case RTest => 3
    case RDrain => 4 case RTop => 5 case RFlag => 6 case RRet => 7 case RTell => 13
  }

  function WriterWeight(w: Writer): nat {
    match w
    case WIdle => 0 case WRetW => 6 case WRetR => 14 case WRet => 15
    case WAsleep => 13 case WWait => 14 case WPut => 14 case WWoken => 15 case WFull => 15 case WLast => 15
    case WTop => 16 case WTell => 24
  }

  function SignalWeight(g: Signaller): nat {
    match g case SIdle => 0 case SWriter => 6 case SReader => 14
  }

  function Left(n: int): nat { if n > 0 then n else 0 }

  ghost function Weight(s: State): int {
    BYTE * (Left(s.rem) + |s.out|) + READER_NOTE * s.rWait.value + WRITER_NOTE * s.wWait.value +
    ReaderWeight(s.reader) + WriterWeight(s.writer) + SignalWeight(s.signaller)
  }

  /** A reader inside ring_getc still wants a byte. */
  ghost predicate Wanting(s: State) {
    s.reader.RDrain? || s.reader.RTest? || s.reader.RWait? || s.reader.RAsleep? || s.reader.RWoken? || s.reader.RTake? ==> s.rem > 0
  }

  ghost predicate Fine(s: State) { Inv(s) && Wanting(s) }

  predicate Works(e: Event) { e.ReaderStep? || e.WriterStep? || e.SignalStep? }

  // ---------------------------------------------------------------- every step lowers it

  lemma InvGives(s: State)
    requires Inv(s)
    ensures B.Valid(s.ring) && s.rWait.value >= 0 && s.wWait.value >= 0 && (s.writer.WPut? ==> s.out != [])
  {
  }

  /** What a notification adds: itself, and waking its thread. */
  lemma NotesWeigh(s: State)
    ensures Weight(NotifyReader(s)) <= Weight(s) + READER_NOTE + 2 && Weight(NotifyWriter(s)) <= Weight(s) + WRITER_NOTE + 2
    ensures NotifyReader(s).writer == s.writer && NotifyReader(s).signaller == s.signaller
    ensures NotifyWriter(s).reader == s.reader && NotifyWriter(s).signaller == s.signaller
    ensures !s.writer.WAsleep? ==> NotifyWriter(s).writer == s.writer
  {
  }

  lemma ReaderWants(s: State)
    requires Fine(s)
    ensures B.Valid(s.ring) && Wanting(StepReader(s))
  {
    hide B.Valid, B.Contents, B.Readable, B.Take, Inv;
    InvGives(s);
  }

  lemma ReaderFalls(s: State)
    requires Fine(s)
    ensures B.Valid(s.ring)
    ensures if s.reader.RIdle? || s.reader.RAsleep? then StepReader(s) == s else Weight(StepReader(s)) < Weight(s)
  {
    hide B.Valid, B.Contents, B.Readable, B.Take, Inv, NotifyWriter, WriterWeight, SignalWeight;
    InvGives(s);
    NotesWeigh(s);
    match s.reader
    case RTake =>
    case RIdle => case RTop => case RDrain => case RTest => case RWait => case RAsleep => case RWoken => case RTell => case RRet => case RFlag =>
  }

  lemma WriterWants(s: State)
    requires Fine(s)
    ensures B.Valid(s.ring) && Wanting(StepWriter(s))
  {
    hide B.Valid, B.Contents, B.Writable, B.Put, Inv;
    InvGives(s);
  }

  lemma WriterFalls(s: State)
    requires Fine(s)
    ensures B.Valid(s.ring)
    ensures if s.writer.WIdle? || s.writer.WAsleep? then StepWriter(s) == s else Weight(StepWriter(s)) < Weight(s)
  {
    hide B.Valid, B.Contents, B.Writable, B.Put, Inv, NotifyReader, NotifyWriter, ReaderWeight, SignalWeight;
    InvGives(s);
    NotesWeigh(s);
    match s.writer
    case WPut =>
    case WIdle => case WTop => case WFull => case WWait => case WAsleep => case WWoken =>
    case WLast => case WTell => case WRet => case WRetR => case WRetW =>
  }

  lemma SignalFalls(s: State)
    requires Fine(s)
    ensures var t := Next(s, SignalStep); Wanting(t) && (t != s ==> Weight(t) < Weight(s))
  {
    hide B.Valid, B.Contents, Inv;
    InvGives(s);
    match s.signaller { case SIdle => case SReader => case SWriter => }
  }

  lemma Falls(s: State, e: Event)
    requires Fine(s) && Works(e)
    ensures Fine(Next(s, e)) && (Next(s, e) != s ==> Weight(Next(s, e)) < Weight(s))
  {
    hide Inv, Weight, StepReader, StepWriter, Wanting;
    InvNext(s, e);
    if e.ReaderStep? { ReaderWants(s); ReaderFalls(s); } else if e.WriterStep? { WriterWants(s); WriterFalls(s); } else { SignalFalls(s); }
  }

  lemma WeightNat(s: State)
    requires Inv(s)
    ensures Weight(s) >= 0
  {
  }

  // ---------------------------------------------------------------- runs

  lemma FineNext(s: State, e: Event)
    requires Fine(s)
    ensures Fine(Next(s, e))
  {
    if Works(e) {
      hide Fine, Next;
      Falls(s, e);
    } else {
      hide Inv;
      InvNext(s, e);
    }
  }

  lemma {:induction false} FineRun(s: State, es: seq<Event>)
    requires Fine(s)
    ensures Fine(Run(s, es))
    decreases |es|
  {
    if es != [] {
      hide Inv, Wanting, Next;
      FineRun(s, es[..|es| - 1]);
      FineNext(Run(s, es[..|es| - 1]), es[|es| - 1]);
    }
  }

  /** How many events of a run do anything. */
  ghost function Moves(s: State, es: seq<Event>): nat
    requires Inv(s)
    decreases |es|
  {
    if es == [] then 0
    else
      var front := es[..|es| - 1];
      Moves(s, front) + if Run(s, es) != Run(s, front) then 1 else 0
  }

  /** No livelock: however the steps are scheduled, at most as many of them do anything as the weight
      of the state they start in. */
  lemma {:induction false} FewMoves(s: State, es: seq<Event>)
    requires Fine(s) && forall i :: 0 <= i < |es| ==> Works(es[i])
    ensures Fine(Run(s, es)) && Weight(Run(s, es)) + Moves(s, es) <= Weight(s)
    decreases |es|
  {
    hide Inv, Wanting, Next, Weight;
    if es != [] {
      var front := es[..|es| - 1];
      FewMoves(s, front);
      Falls(Run(s, front), es[|es| - 1]);
    }
  }

  // ---------------------------------------------------------------- rounds

  /** Each of the three takes a step. */
  function Round(): seq<Event> { [ReaderStep, WriterStep, SignalStep] }

  function Rounds(n: nat): seq<Event> { if n == 0 then [] else Rounds(n - 1) + Round() }

  ghost predicate Still(s: State)
    requires Inv(s)
  {
    StepReader(s) == s && StepWriter(s) == s && s.signaller == SIdle
  }

  lemma {:induction false} RunCat(s: State, a: seq<Event>, b: seq<Event>)
    requires Inv(s)
    ensures Run(s, a + b) == Run(Run(s, a), b)
    decreases |b|
  {
    if b == [] {
      assert a + b == a;
    } else {
      var front := b[..|b| - 1];
      assert (a + b)[..|a + b| - 1] == a + front;
      hide Inv, Next;
      RunCat(s, a, front);
    }
  }

  ghost function OneRound(s: State): (t: State)
    requires Inv(s)
    ensures Inv(t)
  {
    InvReader(s);
    InvWriter(StepReader(s));
    InvSignal(StepWriter(StepReader(s)));
    Next(StepWriter(StepReader(s)), SignalStep)
  }

  lemma OneStep(s: State, e: Event)
    requires Inv(s)
    ensures Run(s, [e]) == Next(s, e)
  {
    assert [e][..0] == [];
  }

  lemma RoundRuns(s: State)
    requires Inv(s)
    ensures Run(s, Round()) == OneRound(s)
  {
    hide Inv, StepReader, StepWriter, Run;
    var r, w := Run(s, [ReaderStep]), Run(s, [ReaderStep] + [WriterStep]);
    OneStep(s, ReaderStep);
    RunCat(s, [ReaderStep], [WriterStep]);
    OneStep(r, WriterStep);
    RunCat(s, [ReaderStep] + [WriterStep], [SignalStep]);
    OneStep(w, SignalStep);
    assert Round() == [ReaderStep] + [WriterStep] + [SignalStep];
  }

  /** A round of a state that is not still lowers the weight; a still state stays as it is. */
  lemma RoundFalls(s: State)
    requires Fine(s)
    ensures Fine(OneRound(s)) && (if Still(s) then OneRound(s) == s else Weight(OneRound(s)) < Weight(s))
  {
    Falls(s, ReaderStep);
    Falls(StepReader(s), WriterStep);
    Falls(StepWriter(StepReader(s)), SignalStep);
    SignalMoves(StepWriter(StepReader(s)));
    hide Inv, Wanting, StepReader, StepWriter, Weight;
  }

  lemma SignalMoves(s: State)
    requires Inv(s)
    ensures Next(s, SignalStep) == s <==> s.signaller == SIdle
  {
  }

  lemma {:induction false} RoundsFall(s: State, n: nat)
    requires Fine(s)
    ensures Fine(Run(s, Rounds(n))) && (Still(Run(s, Rounds(n))) || Weight(Run(s, Rounds(n))) + n <= Weight(s))
    decreases n
  {
    hide Inv, Wanting, Next, Weight, OneRound, Still;
    if n > 0 {
      RoundsFall(s, n - 1);
      RunCat(s, Rounds(n - 1), Round());
      var t := Run(s, Rounds(n - 1));
      RoundRuns(t);
      RoundFalls(t);
    }
  }

  /** Progress: from every reachable state of a ring of two slots or more, once each thread has been
      given more steps than the state weighs, everybody is done, or a reader waits on a drained ring
      for a writer that is done, or a writer on a full ring for a reader that is done. */
  lemma ComesToRest(base: seq<byte>, es: seq<Event>, n: nat)
    requires |base| >= 2
    ensures Inv(Init(base))
    ensures n > Weight(Run(Init(base), es)) ==>
      var s := Run(Init(base), es + Rounds(n));
      || (s.reader.RIdle? && s.writer.WIdle?)
      || (s.reader.RAsleep? && s.writer.WIdle? && s.delivered == s.accepted && !s.eof && !s.brk)
      || (s.writer.WAsleep? && s.reader.RIdle? && |s.accepted| - |s.delivered| == |base| - 1 && !s.eof)
  {
    InvInit(base);
    hide Inv, Next, Weight;
    FineRun(Init(base), es);
    var s := Run(Init(base), es);
    if n > Weight(s) {
      RoundsFall(s, n);
      RunCat(Init(base), es, Rounds(n));
      var t := Run(s, Rounds(n));
      WeightNat(t);
      StandsStill(base, es + Rounds(n));
    }
  }
}
