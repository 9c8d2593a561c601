/** Round-robin order: what a run of timer ticks and departures selects while no thread is added.
    The order is the one the run queue keeps: the running thread comes last. */
module RoundRobin {
  import opened RunQueues
  import opened Sequences

  datatype Event = Tick | Leave(t: int)

  /** The order after yield, or after sched_unqueue of a thread. */
  function After(q: seq<int>, e: Event): seq<int> {
    match e
    case Tick => Rotate(q)
    case Leave(t) => if t in q then Left(q, Last(q), t) else q
  }

  /** The thread that the event puts on the processor, if any. */
  function Chosen(q: seq<int>, e: Event): seq<int> {
    match e
    case Tick => if q == [] then [] else [q[0]]
    case Leave(t) => if |q| > 1 && t == Last(q) then [q[0]] else []
  }

  function Run(q: seq<int>, es: seq<Event>): seq<int> {
    if es == [] then q else After(Run(q, es[..|es| - 1]), es[|es| - 1])
  }

  function Trace(q: seq<int>, es: seq<Event>): seq<int> {
    if es == [] then [] else Trace(q, es[..|es| - 1]) + Chosen(Run(q, es[..|es| - 1]), es[|es| - 1])
  }

  /** Since `t` ran, the threads of `s` have run once each and those of `w` are still waiting. */
  ghost predicate Standing(q: seq<int>, w: seq<int>, t: int, s: seq<int>, trace: seq<int>) {
    && q == w + [t] + s && Distinct(q)
    && (forall u :: u in w ==> u !in trace)
    && (forall u :: u in s ==> multiset(trace)[u] == 1)
  }

  lemma NotCounted(trace: seq<int>, u: int)
    requires u !in trace
    ensures multiset(trace)[u] == 0
  {
    assert forall x :: x in multiset(trace) ==> x in trace;
  }

  lemma Ticked(q: seq<int>, w: seq<int>, t: int, s: seq<int>, trace: seq<int>)
    requires Standing(q, w, t, s, trace) && w != []
    ensures Standing(Rotate(q), w[1..], t, s + [w[0]], trace + [q[0]])
  {
    assert Rotate(q) == w[1..] + [t] + (s + [w[0]]);
    assert w == [w[0]] + w[1..];
    forall u | u in w[1..] || u in s ensures u != w[0] {
      assert u in q[1..] by { assert q[1..] == w[1..] + [t] + s; }
      assert q == [w[0]] + q[1..];
    }
    assert w[0] in w;
    NotCounted(trace, w[0]);
  }

  lemma MinusAt(q: seq<int>, i: int)
    requires Distinct(q) && 0 <= i < |q|
    ensures q[i] in q && Minus(q, q[i]) == q[..i] + q[i + 1..]
  {
    var j := IndexOf(q, q[i]);
  }

  lemma DistinctWithout(q: seq<int>, i: int)
    requires Distinct(q) && 0 <= i < |q|
    ensures Distinct(q[..i] + q[i + 1..])
  {
  }

  /** A waiting thread leaves. */
  lemma WaiterLeft(q: seq<int>, w: seq<int>, t: int, s: seq<int>, trace: seq<int>, i: int)
    requires Standing(q, w, t, s, trace) && 0 <= i < |w|
    ensures q[i] in q && q[i] != Last(q) && Standing(Minus(q, q[i]), w[..i] + w[i + 1..], t, s, trace)
  {
    MinusAt(q, i);
    DistinctWithout(q, i);
    assert q[..i] + q[i + 1..] == w[..i] + w[i + 1..] + [t] + s;
    assert forall u :: u in w[..i] + w[i + 1..] ==> u in w;
  }

  /** A thread that has run leaves. */
  lemma RunnerLeft(q: seq<int>, w: seq<int>, t: int, s: seq<int>, trace: seq<int>, i: int)
    requires Standing(q, w, t, s, trace) && 0 <= i < |s|
    ensures s[i] in q && Standing(Minus(q, s[i]), w, t, s[..i] + s[i + 1..], trace)
  {
    var k := |w| + 1 + i;
    assert q[k] == s[i];
    MinusAt(q, k);
    DistinctWithout(q, k);
    assert q[..k] + q[k + 1..] == w + [t] + (s[..i] + s[i + 1..]);
    assert forall u :: u in s[..i] + s[i + 1..] ==> u in s;
  }

  /** One event that neither removes `t` nor selects it. */
  lemma Stepped(q: seq<int>, w: seq<int>, t: int, s: seq<int>, trace: seq<int>, e: Event) returns (w': seq<int>, s': seq<int>)
    requires Standing(q, w, t, s, trace) && e != Leave(t) && t !in Chosen(q, e)
    ensures Standing(After(q, e), w', t, s', trace + Chosen(q, e))
  {
    hide Minus, Rotate, Standing;
    StandingIs(q, w, t, s, trace);
    assert trace + [] == trace;
    match e
    case Tick =>
      Ticked(q, w, t, s, trace);
      w', s' := w[1..], s + [w[0]];
    case Leave(x) =>
      if x in w {
        var i :| 0 <= i < |w| && w[i] == x;
        WaiterLeft(q, w, t, s, trace, i);
        w', s' := w[..i] + w[i + 1..], s;
      } else if x in s {
        var i :| 0 <= i < |s| && s[i] == x;
        RunnerLeft(q, w, t, s, trace, i);
        w', s' := w, s[..i] + s[i + 1..];
        if x == Last(q) {
          MinusFirst(q, w, t, s, trace, i);
          Ticked(Minus(q, x), w', t, s', trace);
          w', s' := w'[1..], s' + [w'[0]];
        }
      } else {
        w', s' := w, s;
      }
  }

  lemma StandingIs(q: seq<int>, w: seq<int>, t: int, s: seq<int>, trace: seq<int>)
    requires Standing(q, w, t, s, trace)
    ensures q == w + [t] + s && (w == [] ==> q[0] == t) && (w != [] ==> q[0] == w[0] != t)
    ensures forall x :: x in q <==> x in w || x == t || x in s
    ensures |q| == |w| + 1 + |s|
  {
    assert q[|w|] == t;
  }

  lemma MinusFirst(q: seq<int>, w: seq<int>, t: int, s: seq<int>, trace: seq<int>, i: int)
    requires Standing(q, w, t, s, trace) && 0 <= i < |s| && s[i] in q
    ensures Minus(q, s[i]) != [] && Minus(q, s[i])[0] == q[0]
  {
    MinusAt(q, |w| + 1 + i);
    assert q[|w| + 1 + i] == s[i];
  }

  lemma {:induction false} Round(q: seq<int>, es: seq<Event>, t: int) returns (w: seq<int>, s: seq<int>)
    requires Distinct(q) && q != [] && Last(q) == t && Leave(t) !in es && t !in Trace(q, es)
    ensures Standing(Run(q, es), w, t, s, Trace(q, es))
    decreases |es|
  {
    if es == [] {
      w, s := q[..|q| - 1], [];
      assert q == w + [t] + s;
    } else {
      var front, e := es[..|es| - 1], es[|es| - 1];
      w, s := Round(q, front, t);
      w, s := Stepped(Run(q, front), w, t, s, Trace(q, front), e);
    }
  }

  /** Fairness.  Between two selections of a thread that stays queued, every other thread that
      stays queued is selected exactly once, whoever leaves meanwhile. */
  lemma Fair(q: seq<int>, es: seq<Event>, t: int, e: Event)
    requires Distinct(q) && q != [] && Last(q) == t && Leave(t) !in es && t !in Trace(q, es)
    requires e != Leave(t) && Chosen(Run(q, es), e) == [t]
    ensures forall u :: u in After(Run(q, es), e) && u != t ==> multiset(Trace(q, es))[u] == 1
  {
    var w, s := Round(q, es, t);
    var r := Run(q, es);
    StandingIs(r, w, t, s, Trace(q, es));
    assert w == [];
    forall u | u in After(r, e) && u != t ensures u in s {
      RotateItems(r);
      if e.Leave? && e.t in r { LeaveItems(r, Last(r), e.t); }
    }
  }

  // ---------------------------------------------------------------- no thread waits for ever

  /** How many timer ticks a run has. */
  function Ticks(es: seq<Event>): nat {
    if es == [] then 0 else Ticks(es[..|es| - 1]) + if es[|es| - 1] == Tick then 1 else 0
  }

  /** An event that neither removes nor selects a queued thread brings it no further back, and a
      tick brings it forward. */
  lemma ComesForward(q: seq<int>, e: Event, t: int)
    requires Distinct(q) && t in q && e != Leave(t) && t !in Chosen(q, e)
    ensures Distinct(After(q, e)) && t in After(q, e)
    ensures Index(After(q, e), t) + (if e == Tick then 1 else 0) <= Index(q, t)
  {
    var i := Index(q, t);
    match e
    case Tick => Rotated(q, i);
    case Leave(x) =>
      if x in q {
        var k := IndexOf(q, x);
        MinusAt(q, k);
        DistinctWithout(q, k);
        var r := Minus(q, x);
        assert r[if k < i then i - 1 else i] == t;
        IndexIs(r, if k < i then i - 1 else i);
        if x == Last(q) { Rotated(r, i); }
      }
  }

  lemma IndexIs(q: seq<int>, i: int)
    requires Distinct(q) && 0 <= i < |q|
    ensures Index(q, q[i]) == i
  {
    var k := Index(q, q[i]);
  }

  lemma Rotated(q: seq<int>, i: int)
    requires Distinct(q) && 0 < i < |q|
    ensures Distinct(Rotate(q)) && q[i] in Rotate(q) && Index(Rotate(q), q[i]) == i - 1
  {
    assert Rotate(q)[i - 1] == q[i];
    IndexIs(Rotate(q), i - 1);
  }

  lemma {:induction false} StillWaiting(q: seq<int>, es: seq<Event>, t: int)
    requires Distinct(q) && t in q && Leave(t) !in es && t !in Trace(q, es)
    ensures Distinct(Run(q, es)) && t in Run(q, es) && Index(Run(q, es), t) + Ticks(es) <= Index(q, t)
    decreases |es|
  {
    if es != [] {
      var front := es[..|es| - 1];
      StillWaiting(q, front, t);
      ComesForward(Run(q, front), es[|es| - 1], t);
    }
  }

  /** No starvation: a thread that stays queued is selected within as many ticks as there are
      threads, whoever leaves meanwhile. */
  lemma NoStarvation(q: seq<int>, es: seq<Event>, t: int)
    requires Distinct(q) && t in q && Leave(t) !in es && Ticks(es) >= |q|
    ensures t in Trace(q, es)
  {
    if t !in Trace(q, es) { StillWaiting(q, es, t); }
  }

  /** What sched_unqueue makes of the order is the event of the thread leaving. */
  lemma UnqueueIsLeave(m: Threads, q: seq<int>, head: int, size: int, cur: int, cpu: int, t: int)
    requires QueueOk(m, q, head, size, cur, cpu) && t in q && (cur != NULL || t != Last(q))
    ensures Left(q, cur, t) == After(q, Leave(t))
  {
  }
}
