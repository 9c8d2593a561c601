/** What read and write calls on a ring promise their callers, over every interleaving. */
module RingCalls {
  import opened Memory
  import opened RingProtocol
  import B = RingBuffer

  // ---------------------------------------------------------------- the stream

  /** The buffers of all write calls that a run makes, one after the other. */
  ghost function Written(s: State, es: seq<Event>): seq<byte>
    requires Inv(s)
    decreases |es|
  {
    if es == [] then []
    else
      var front, e := es[..|es| - 1], es[|es| - 1];
      Written(s, front) + if e.StartWrite? && Run(s, front).writer == WIdle then e.buf else []
  }

  /** All that was written is accepted or still to be sent; or the stream has ended, and what was
      accepted by then is its beginning. */
  ghost predicate Streams(s: State, w: seq<byte>) {
    && (w == s.accepted + s.out || (s.eof && !s.writer.WPut? && s.accepted <= w))
    && (Finishing(s.writer) ==> s.out == [] || s.eof)
  }

  predicate Finishing(w: Writer) { w.WIdle? || w.WRet? || w.WRetR? || w.WRetW? }

  /** Only a put moves a byte. */
  lemma WriterSends(s: State)
    requires B.Valid(s.ring)
    ensures var t := StepWriter(s);
      if s.writer.WPut? && s.out != [] then
        t.accepted == s.accepted + [s.out[0]] && t.out == s.out[1..] && t.writer == WTell && t.eof == s.eof
      else t.accepted == s.accepted && t.out == s.out && t.eof == s.eof
  {
    hide B.Contents, B.Valid, B.Writable, B.Put, NotifyReader, NotifyWriter;
    NotifyLeaves(s);
    match s.writer
    case WPut =>
    case WIdle => case WTop => case WFull => case WWait => case WAsleep => case WWoken =>
    case WLast => case WTell => case WRet => case WRetR => case WRetW =>
  }

  lemma WriterGoes(s: State)
    requires B.Valid(s.ring)
    ensures var t := StepWriter(s);
      && (Finishing(t.writer) ==> Finishing(s.writer) || s.out == [] || s.eof)
      && (t.writer.WPut? ==> !s.eof || (s.writer.WPut? && s.out == []))
  {
    hide B.Contents, B.Valid, B.Writable, B.Put, NotifyReader, NotifyWriter;
    NotifyLeaves(s);
    match s.writer
    case WPut =>
    case WIdle => case WTop => case WFull => case WWait => case WAsleep => case WWoken =>
    case WLast => case WTell => case WRet => case WRetR => case WRetW =>
  }

  lemma StreamsWriter(s: State, w: seq<byte>)
    requires Inv(s) && Streams(s, w)
    ensures Streams(StepWriter(s), w)
  {
    hide Inv, B.Valid, StepWriter;
    RingOk(s);
    WriterSends(s);
    WriterGoes(s);
    if s.writer.WPut? { PutMoves(s.accepted, s.out); }
  }

  lemma PutMoves(a: seq<byte>, out: seq<byte>)
    requires out != []
    ensures a + [out[0]] + out[1..] == a + out
  {
  }

  lemma StreamsReader(s: State, w: seq<byte>)
    requires Inv(s) && Streams(s, w)
    ensures Streams(StepReader(s), w)
  {
    hide B.Contents, B.Readable, B.Take, Inv;
    RingOk(s);
    ReaderLeaves(s);
  }

  lemma RingOk(s: State)
    requires Inv(s)
    ensures B.Valid(s.ring) && (s.writer.WPut? ==> s.out != [])
  {
  }

  lemma NotifyLeaves(s: State)
    ensures var t := NotifyWriter(s);
      && t.accepted == s.accepted && t.out == s.out && t.eof == s.eof && t.delivered == s.delivered && t.rem == s.rem
      && t.reader == s.reader && (t.writer == s.writer || (s.writer.WAsleep? && t.writer.WWoken?))
    ensures var t := NotifyReader(s);
      && t.accepted == s.accepted && t.out == s.out && t.eof == s.eof && t.delivered == s.delivered && t.rem == s.rem
      && t.writer == s.writer && (t.reader == s.reader || (s.reader.RAsleep? && t.reader.RWoken?))
  {
  }

  /** A step of the reader sends nothing and ends no stream. */
  lemma ReaderLeaves(s: State)
    requires B.Valid(s.ring)
    ensures var t := StepReader(s);
      t.accepted == s.accepted && t.out == s.out && t.eof == s.eof && (t.writer == s.writer || (s.writer.WAsleep? && t.writer.WWoken?))
  {
    hide B.Valid, B.Contents, B.Readable, B.Take, NotifyWriter;
    NotifyLeaves(s);
    match s.reader
    case RTake =>
    case RIdle => case RTop => case RDrain => case RTest => case RWait => case RAsleep => case RWoken => case RTell => case RRet => case RFlag =>
  }

  /** A step of the writer delivers nothing. */
  lemma WriterLeaves(s: State)
    requires B.Valid(s.ring)
    ensures var t := StepWriter(s);
      && t.delivered == s.delivered && t.rem == s.rem
      && (t.reader == s.reader || (s.reader.RAsleep? && t.reader.RWoken?))
  {
    hide B.Valid, B.Contents, B.Writable, B.Put, NotifyReader, NotifyWriter;
    NotifyLeaves(s);
    match s.writer
    case WPut =>
    case WIdle => case WTop => case WFull => case WWait => case WAsleep => case WWoken =>
    case WLast => case WTell => case WRet => case WRetR => case WRetW =>
  }

  lemma StreamsNext(s: State, e: Event, w: seq<byte>)
    requires Inv(s) && Streams(s, w)
    ensures Streams(Next(s, e), w + if e.StartWrite? && s.writer == WIdle then e.buf else [])
  {
    assert w + [] == w;
    if e.ReaderStep? {
      hide Inv, Streams, StepReader;
      StreamsReader(s, w);
    } else if e.WriterStep? {
      hide Inv, Streams, StepWriter;
      StreamsWriter(s, w);
    } else {
      hide Inv, Streams, Next;
      StreamsCall(s, e, w);
    }
  }

  lemma StreamsCall(s: State, e: Event, w: seq<byte>)
    requires B.Valid(s.ring) && Streams(s, w) && !e.ReaderStep? && !e.WriterStep?
    ensures Streams(Next(s, e), w + if e.StartWrite? && s.writer == WIdle then e.buf else [])
  {
    hide B.Valid, StepReader, StepWriter, NotifyReader, NotifyWriter;
    assert w + [] == w;
    match e
    case StartWrite(buf) =>
      if s.writer == WIdle {
        assert buf == [] ==> w + buf == w;
        assert s.out == [] ==> s.accepted + s.out == s.accepted;
      }
    case SignalStep => NotifyLeaves(s);
    case StartRead(_) => case Raise(_) =>
  }

  lemma {:induction false} StreamsRun(base: seq<byte>, es: seq<Event>)
    requires |base| > 0
    ensures Inv(Init(base)) && Streams(Run(Init(base), es), Written(Init(base), es))
    decreases |es|
  {
    InvInit(base);
    hide Inv, Streams, Next;
    if es == [] {
      NothingStreams(base);
    } else {
      var front := es[..|es| - 1];
      StreamsRun(base, front);
      StreamsNext(Run(Init(base), front), es[|es| - 1], Written(Init(base), front));
    }
  }

  lemma NothingStreams(base: seq<byte>)
    ensures Streams(Init(base), [])
  {
  }

  /** The pipe is a stream.  In every interleaving the bytes delivered are a beginning of the buffers
      of the write calls, in the order of the calls; unless the stream has ended, what is neither
      delivered nor buffered is what the writer has left to send, and nothing of it is left between
      calls. */
  lemma DeliversWrites(base: seq<byte>, es: seq<Event>)
    requires |base| > 0
    ensures Inv(Init(base))
    ensures var s, w := Run(Init(base), es), Written(Init(base), es);
      && s.delivered <= s.accepted <= w
      && (!s.eof ==> w == s.delivered + B.Contents(s.ring) + s.out)
      && (!s.eof && s.writer.WIdle? ==> w == s.delivered + B.Contents(s.ring))
  {
    hide Run, Written, B.Contents;
    StreamsRun(base, es);
    EveryInterleaving(base, es);
    var s := Run(Init(base), es);
    assert s.accepted + [] == s.accepted;
  }

  /** End of stream has been signalled. */
  ghost predicate Ended(s: State, es: seq<Event>)
    requires Inv(s)
  {
    exists i :: 0 <= i < |es| && es[i] == Raise(Eof) && Run(s, es[..i]).signaller == SIdle
  }

  lemma EofNext(s: State, e: Event)
    requires Inv(s)
    ensures Next(s, e).eof <==> s.eof || (e == Raise(Eof) && s.signaller == SIdle)
  {
    hide Inv, B.Valid, StepReader, StepWriter, NotifyReader, NotifyWriter;
    RingOk(s);
    match e
    case ReaderStep => ReaderLeaves(s);
    case WriterStep => WriterSends(s);
    case SignalStep => NotifyLeaves(s);
    case StartRead(_) => case StartWrite(_) => case Raise(_) =>
  }

  /** The stream has ended exactly if that was signalled. */
  lemma {:induction false} EofIff(base: seq<byte>, es: seq<Event>)
    requires |base| > 0
    ensures Inv(Init(base)) && (Run(Init(base), es).eof <==> Ended(Init(base), es))
    decreases |es|
  {
    InvInit(base);
    var s := Init(base);
    if es != [] {
      hide Inv, Next, Ended;
      var front := es[..|es| - 1];
      EofIff(base, front);
      RunFront(s, es);
      EofNext(Run(s, front), es[|es| - 1]);
      EndedStep(s, es);
    } else {
      hide Inv;
    }
  }

  lemma EndedStep(s: State, es: seq<Event>)
    requires Inv(s) && es != []
    ensures Inv(Run(s, es[..|es| - 1]))
    ensures var front := es[..|es| - 1];
      Ended(s, es) <==> Ended(s, front) || (es[|es| - 1] == Raise(Eof) && Run(s, front).signaller == SIdle)
  {
    hide Inv, Run;
    var front := es[..|es| - 1];
    if Ended(s, front) {
      var i :| 0 <= i < |front| && front[i] == Raise(Eof) && Run(s, front[..i]).signaller == SIdle;
      assert front[..i] == es[..i];
    }
    if Ended(s, es) {
      var i :| 0 <= i < |es| && es[i] == Raise(Eof) && Run(s, es[..i]).signaller == SIdle;
      assert i < |front| ==> front[..i] == es[..i] && front[i] == es[i];
    }
  }

  // ---------------------------------------------------------------- one write call

  lemma {:induction false} RunFront(s: State, es: seq<Event>)
    requires Inv(s) && es != []
    ensures Inv(Run(s, es[..|es| - 1])) && Run(s, es) == Next(Run(s, es[..|es| - 1]), es[|es| - 1])
  {
  }

  ghost predicate Sending(s: State, before: seq<byte>, buf: seq<byte>) {
    && |s.out| <= |buf| && s.out == buf[|buf| - |s.out|..] && s.accepted == before + buf[..|buf| - |s.out|]
    && (Finishing(s.writer) ==> s.out == [] || s.eof)
  }

  lemma SendingNext(s: State, e: Event, before: seq<byte>, buf: seq<byte>)
    requires Inv(s) && Sending(s, before, buf) && !e.StartWrite?
    ensures Sending(Next(s, e), before, buf)
  {
    hide Inv, B.Valid, StepReader, StepWriter, NotifyReader, NotifyWriter;
    RingOk(s);
    if e.ReaderStep? {
      ReaderLeaves(s);
    } else if e.WriterStep? {
      hide Sending;
      SendingWriter(s, before, buf);
    } else {
      NotifyLeaves(s);
    }
  }

  lemma SendingWriter(s: State, before: seq<byte>, buf: seq<byte>)
    requires Inv(s) && Sending(s, before, buf)
    ensures Sending(StepWriter(s), before, buf)
  {
    hide Inv, B.Valid, StepWriter;
    RingOk(s);
    WriterSends(s);
    WriterGoes(s);
    if s.writer.WPut? {
      var k := |buf| - |s.out|;
      assert buf[..k + 1] == buf[..k] + [buf[k]];
      assert s.out[0] == buf[k] && s.out[1..] == buf[k + 1..];
    }
  }

  ghost predicate Raised(s: State, es: seq<Event>)
    requires Inv(s)
  {
    exists i :: 0 <= i <= |es| && Run(s, es[..i]).ret
  }

  lemma RaisedMore(s: State, es: seq<Event>)
    requires Inv(s) && es != [] && Raised(s, es[..|es| - 1])
    ensures Raised(s, es)
  {
    hide Run, Inv;
    var front := es[..|es| - 1];
    var i :| 0 <= i <= |front| && Run(s, front[..i]).ret;
    assert front[..i] == es[..i];
  }

  lemma RaisedNow(s: State, es: seq<Event>)
    requires Inv(s) && Run(s, es).ret
    ensures Raised(s, es)
  {
    assert es[..|es|] == es;
  }

  /** The call has passed the signal at its end. */
  ghost predicate Signals(s: State, raised: bool) {
    (s.writer.WRetR? || s.writer.WRetW? || (s.writer.WIdle? && !s.eof)) ==> raised
  }

  lemma SignalsNext(s: State, e: Event, raised: bool)
    requires Inv(s) && Signals(s, raised) && !e.StartWrite?
    ensures Signals(Next(s, e), raised || Next(s, e).ret)
  {
    hide Inv, B.Valid, StepReader, NotifyReader, NotifyWriter;
    RingOk(s);
    NotifyLeaves(s);
    if e.ReaderStep? {
      hide StepWriter;
      ReaderLeaves(s);
    } else if e.WriterStep? {
      hide B.Writable, B.Put;
    } else {
      hide StepWriter;
    }
  }

  /** A write call sends its buffer from the front: at every moment until the next call what it has
      added to the stream is a beginning of the buffer, and the rest is what is left.  If it returns
      and the stream has not ended, it has sent everything and raised RET. */
  lemma {:induction false} WriteCall(s: State, buf: seq<byte>, es: seq<Event>)
    requires Inv(s) && s.writer == WIdle && buf != [] && forall i :: 0 <= i < |es| ==> !es[i].StartWrite?
    ensures Inv(Next(s, StartWrite(buf)))
    ensures var start := Next(s, StartWrite(buf)); var t := Run(start, es);
      && Sending(t, s.accepted, buf)
      && (t.writer.WIdle? && !t.eof ==> t.accepted == s.accepted + buf && Raised(start, es))
      && Signals(t, Raised(start, es))
    decreases |es|
  {
    InvNext(s, StartWrite(buf));
    var start := Next(s, StartWrite(buf));
    if es == [] {
      assert buf[..0] == [] && s.accepted + [] == s.accepted;
    } else {
      hide Inv, Next, Sending, Signals, Raised;
      var front := es[..|es| - 1];
      WriteCall(s, buf, front);
      RunFront(start, es);
      var u := Run(start, front);
      SendingNext(u, es[|es| - 1], s.accepted, buf);
      SignalsNext(u, es[|es| - 1], Raised(start, front));
      if Raised(start, front) { RaisedMore(start, es); }
      if Run(start, es).ret { RaisedNow(start, es); }
      SignalsMore(Run(start, es), Raised(start, front) || Run(start, es).ret, Raised(start, es));
      AllSent(Run(start, es), s.accepted, buf, Raised(start, es));
    }
  }

  lemma SignalsMore(s: State, a: bool, b: bool)
    requires Signals(s, a) && (a ==> b)
    ensures Signals(s, b)
  {
  }

  lemma AllSent(s: State, before: seq<byte>, buf: seq<byte>, raised: bool)
    requires Sending(s, before, buf) && Signals(s, raised)
    ensures s.writer.WIdle? && !s.eof ==> s.accepted == before + buf && raised
  {
    assert buf[..|buf|] == buf;
  }

  // ---------------------------------------------------------------- one read call

  function Wants(n: int): nat { if n > 0 then n else 0 }

  predicate Inside(r: Reader) { r.RDrain? || r.RTest? || r.RWait? || r.RAsleep? || r.RWoken? || r.RTake? }

  /** What a call has got.  A call that has tested the ring and found it empty is about to test RET; one
      that has returned with bytes still wanted was stopped. */
  ghost predicate Reading(t: State, before: seq<byte>, n: int, empty: bool, stopped: bool) {
    && before <= t.delivered && |t.delivered| - |before| + Wants(t.rem) == Wants(n)
    && (Inside(t.reader) ==> t.rem > 0)
    && (t.reader.RFlag? ==> empty) && (t.reader.RIdle? && t.rem > 0 ==> stopped)
  }

  lemma ReadingReader(s: State, before: seq<byte>, n: int, empty: bool, stopped: bool, empty': bool, stopped': bool)
    requires B.Valid(s.ring) && Reading(s, before, n, empty, stopped) && (stopped && s.reader.RIdle? ==> stopped')
    requires s.reader.RRet? && B.Contents(s.ring) == [] ==> empty'
    requires s.reader.RDrain? && B.Contents(s.ring) == [] ==> stopped'
    requires s.reader.RFlag? && s.ret ==> stopped'
    ensures Reading(StepReader(s), before, n, empty', stopped')
  {
    hide StepReader, B.Valid, B.Contents;
    ReaderTakes(s);
    ReaderGoes(s);
    ReaderReturns(s);
  }

  /** Only a taken byte is delivered and no longer wanted. */
  lemma ReaderTakes(s: State)
    requires B.Valid(s.ring)
    ensures var t := StepReader(s);
      if s.reader.RTake? then |t.delivered| == |s.delivered| + 1 && s.delivered <= t.delivered && t.rem == s.rem - 1
      else t.delivered == s.delivered && t.rem == s.rem
  {
    hide B.Valid, B.Contents, B.Take, B.Readable, NotifyWriter;
    NotifyLeaves(s);
    match s.reader
    case RTake =>
    case RIdle => case RTop => case RDrain => case RTest => case RWait => case RAsleep => case RWoken => case RTell => case RRet => case RFlag =>
  }

  lemma ReaderGoes(s: State)
    requires B.Valid(s.ring)
    ensures Inside(StepReader(s).reader) ==> (Inside(s.reader) && !s.reader.RTake?) || (s.reader.RTop? && s.rem > 0)
    ensures StepReader(s).reader.RFlag? ==> s.reader.RRet? && B.Contents(s.ring) == []
  {
    hide B.Valid, B.Contents, B.Take, B.Readable, NotifyWriter;
    NotifyLeaves(s);
    Empty(s.ring);
    match s.reader
    case RTake =>
    case RIdle => case RTop => case RDrain => case RTest => case RWait => case RAsleep => case RWoken => case RTell => case RRet => case RFlag =>
  }

  lemma ReaderReturns(s: State)
    requires B.Valid(s.ring)
    ensures StepReader(s).reader.RIdle? ==>
      || s.reader.RIdle? || (s.reader.RTop? && s.rem <= 0)
      || (s.reader.RDrain? && B.Contents(s.ring) == []) || (s.reader.RFlag? && s.ret)
  {
    hide B.Valid, B.Contents, B.Take, B.Readable, NotifyWriter;
    NotifyLeaves(s);
    Empty(s.ring);
    match s.reader
    case RTake =>
    case RIdle => case RTop => case RDrain => case RTest => case RWait => case RAsleep => case RWoken => case RTell => case RRet => case RFlag =>
  }

  lemma Empty(r: B.Ring)
    requires B.Valid(r)
    ensures B.Readable(r) == 0 <==> B.Contents(r) == []
  {
  }

  lemma OtherLeaves(s: State, e: Event)
    requires B.Valid(s.ring) && !e.StartRead? && !e.ReaderStep?
    ensures var t := Next(s, e);
      t.delivered == s.delivered && t.rem == s.rem && (t.reader == s.reader || (s.reader.RAsleep? && t.reader.RWoken?))
  {
    hide B.Valid, StepReader, StepWriter, NotifyReader, NotifyWriter;
    if e.WriterStep? { WriterLeaves(s); } else { NotifyLeaves(s); }
  }

  /** At moment i of the run the ring was empty, and no byte has been taken since. */
  ghost predicate EmptyAt(s: State, es: seq<Event>, i: int)
    requires Inv(s) && 0 <= i <= |es|
  {
    var u := Run(s, es[..i]);
    B.Valid(u.ring) && B.Contents(u.ring) == [] && u.delivered == Run(s, es).delivered
  }

  ghost predicate Emptied(s: State, es: seq<Event>)
    requires Inv(s)
  {
    exists i :: 0 <= i <= |es| && EmptyAt(s, es, i)
  }

  /** The ring was empty after the last byte, with the stream ended or broken then or RET raised then
      or later. */
  ghost predicate Stopped(s: State, es: seq<Event>)
    requires Inv(s)
  {
    exists i, j :: 0 <= i <= j <= |es| && EmptyAt(s, es, i) && ReasonAt(Run(s, es[..i]), Run(s, es[..j]))
  }

  predicate ReasonAt(u: State, v: State) { u.eof || u.brk || v.ret }

  lemma EmptyMore(s: State, es: seq<Event>, i: int)
    requires Inv(s) && es != [] && 0 <= i < |es| && EmptyAt(s, es[..|es| - 1], i)
    requires Run(s, es).delivered == Run(s, es[..|es| - 1]).delivered
    ensures EmptyAt(s, es, i)
  {
    hide Run, Inv, B.Contents, B.Valid;
    assert es[..|es| - 1][..i] == es[..i];
  }

  lemma EmptiedMore(s: State, es: seq<Event>)
    requires Inv(s) && es != [] && Emptied(s, es[..|es| - 1]) && Run(s, es).delivered == Run(s, es[..|es| - 1]).delivered
    ensures Emptied(s, es)
  {
    hide EmptyAt, Run, Inv;
    var i :| 0 <= i <= |es| - 1 && EmptyAt(s, es[..|es| - 1], i);
    EmptyMore(s, es, i);
  }

  lemma StoppedMore(s: State, es: seq<Event>)
    requires Inv(s) && es != [] && Stopped(s, es[..|es| - 1]) && Run(s, es).delivered == Run(s, es[..|es| - 1]).delivered
    ensures Stopped(s, es)
  {
    hide EmptyAt, Run, ReasonAt, Inv;
    var front := es[..|es| - 1];
    var i, j :| 0 <= i <= j <= |front| && EmptyAt(s, front, i) && ReasonAt(Run(s, front[..i]), Run(s, front[..j]));
    EmptyMore(s, es, i);
    assert front[..i] == es[..i] && front[..j] == es[..j];
  }

  /** The state before the last event is empty. */
  lemma EmptyNow(s: State, es: seq<Event>)
    requires Inv(s) && es != [] && B.Valid(Run(s, es[..|es| - 1]).ring) && B.Contents(Run(s, es[..|es| - 1]).ring) == []
    requires Run(s, es).delivered == Run(s, es[..|es| - 1]).delivered
    ensures Emptied(s, es) && EmptyAt(s, es, |es| - 1)
  {
    hide Run, Inv, B.Contents, B.Valid;
    assert EmptyAt(s, es, |es| - 1);
  }

  lemma StoppedNow(s: State, es: seq<Event>, i: int)
    requires Inv(s) && es != [] && 0 <= i < |es| && EmptyAt(s, es, i)
    requires ReasonAt(Run(s, es[..i]), Run(s, es[..|es| - 1]))
    ensures Stopped(s, es)
  {
    hide EmptyAt, Run, ReasonAt, Inv;
  }

  lemma DrainFlag(s: State)
    requires Inv(s)
    ensures B.Valid(s.ring) && (s.reader.RDrain? ==> s.eof || s.brk)
  {
  }

  /** One event of a read call. */
  lemma ReadStep(start: State, es: seq<Event>, before: seq<byte>, n: int)
    requires Inv(start) && es != [] && !es[|es| - 1].StartRead?
    requires var front := es[..|es| - 1]; Reading(Run(start, front), before, n, Emptied(start, front), Stopped(start, front))
    ensures Reading(Run(start, es), before, n, Emptied(start, es), Stopped(start, es))
  {
    var front, e := es[..|es| - 1], es[|es| - 1];
    RunFront(start, es);
    var u := Run(start, front);
    DrainFlag(u);
    hide Inv, Run, Emptied, Stopped, StepReader, StepWriter;
    if e.ReaderStep? {
      ReaderTakes(u);
      if !u.reader.RTake? {
        if Emptied(start, front) { EmptiedMore(start, es); }
        if Stopped(start, front) { StoppedMore(start, es); }
        if B.Contents(u.ring) == [] {
          EmptyNow(start, es);
          if u.reader.RDrain? { StoppedNow(start, es, |es| - 1); }
        }
        if u.reader.RFlag? && u.ret { FlagStops(start, es); }
      }
      ReadingReader(u, before, n, Emptied(start, front), Stopped(start, front), Emptied(start, es), Stopped(start, es));
    } else {
      OtherLeaves(u, e);
      if Emptied(start, front) { EmptiedMore(start, es); }
      if Stopped(start, front) { StoppedMore(start, es); }
      hide Next;
    }
  }

  lemma FlagStops(s: State, es: seq<Event>)
    requires Inv(s) && es != [] && Emptied(s, es[..|es| - 1]) && Run(s, es[..|es| - 1]).ret
    requires Run(s, es).delivered == Run(s, es[..|es| - 1]).delivered
    ensures Stopped(s, es)
  {
    hide EmptyAt, Run, Inv;
    var i :| 0 <= i <= |es| - 1 && EmptyAt(s, es[..|es| - 1], i);
    EmptyMore(s, es, i);
    StoppedNow(s, es, i);
  }

  lemma {:induction false} ReadingRun(s: State, n: int, es: seq<Event>)
    requires Inv(s) && s.reader == RIdle && forall i :: 0 <= i < |es| ==> !es[i].StartRead?
    ensures Inv(Next(s, StartRead(n)))
    ensures var start := Next(s, StartRead(n)); Reading(Run(start, es), s.delivered, n, Emptied(start, es), Stopped(start, es))
    decreases |es|
  {
    InvNext(s, StartRead(n));
    if es != [] {
      hide Inv, Next, Reading, Emptied, Stopped;
      ReadingRun(s, n, es[..|es| - 1]);
      ReadStep(Next(s, StartRead(n)), es, s.delivered, n);
    }
  }

  /** A read of n bytes delivers at most n, and at every moment what is still wanted is the rest.  If it
      returns with fewer, the ring was empty after the last byte, and then the stream had ended or was
      broken, or RET was raised then or later. */
  lemma ReadCall(s: State, n: int, es: seq<Event>)
    requires Inv(s) && s.reader == RIdle && forall i :: 0 <= i < |es| ==> !es[i].StartRead?
    ensures Inv(Next(s, StartRead(n)))
    ensures var start := Next(s, StartRead(n)); var t := Run(start, es);
      && s.delivered <= t.delivered && |t.delivered| - |s.delivered| + Wants(t.rem) == Wants(n)
      && (t.reader.RIdle? && |t.delivered| - |s.delivered| < n ==> Stopped(start, es))
  {
    hide Inv, Next, Run, Emptied, Stopped;
    ReadingRun(s, n, es);
  }

  /** How many steps the reader takes. */
  function ReaderSteps(es: seq<Event>): nat {
    if es == [] then 0 else ReaderSteps(es[..|es| - 1]) + if es[|es| - 1].ReaderStep? then 1 else 0
  }

  /** Steps to the return of a reader that has taken a byte. */
  function ToReturn(r: Reader): int { match r case RTell => 3 case RRet => 2 case RFlag => 1 case RIdle => 0 case _ => 4 }

  lemma ReturnStep(s: State, e: Event)
    requires B.Valid(s.ring) && B.Contents(s.ring) == [] && s.ret && 0 < ToReturn(s.reader) <= 3 && !e.StartRead?
    ensures ToReturn(Next(s, e).reader) == ToReturn(s.reader) - if e.ReaderStep? then 1 else 0
  {
    if e.ReaderStep? {
      hide B.Valid, NotifyWriter;
      NotifyLeaves(s);
    } else {
      hide Next;
      OtherLeaves(s, e);
    }
  }

  /** RET ends a read: a reader that has emptied the ring while RET is up returns after three steps of
      its own, unless a byte comes before. */
  lemma {:induction false} RetEndsRead(s: State, es: seq<Event>)
    requires Inv(s) && s.reader == RTell && (forall i :: 0 <= i < |es| ==> !es[i].StartRead?)
    requires forall i :: 0 <= i < |es| && !Run(s, es[..i]).reader.RIdle? ==> B.Contents(Run(s, es[..i]).ring) == [] && Run(s, es[..i]).ret
    ensures ToReturn(Run(s, es).reader) == if ReaderSteps(es) >= 3 then 0 else 3 - ReaderSteps(es)
    decreases |es|
  {
    if es != [] {
      var front, e := es[..|es| - 1], es[|es| - 1];
      forall i | 0 <= i < |front| && !Run(s, front[..i]).reader.RIdle?
        ensures B.Contents(Run(s, front[..i]).ring) == [] && Run(s, front[..i]).ret
      {
        assert front[..i] == es[..i];
      }
      RetEndsRead(s, front);
      RunFront(s, es);
      var u := Run(s, front);
      RingOk(u);
      hide Inv, Run;
      if u.reader.RIdle? { IdleStays(u, e); } else { ReturnStep(u, e); }
    }
  }

  lemma IdleStays(s: State, e: Event)
    requires B.Valid(s.ring) && s.reader.RIdle? && !e.StartRead?
    ensures Next(s, e).reader.RIdle?
  {
    if !e.ReaderStep? {
      hide Next;
      OtherLeaves(s, e);
    }
  }
}
