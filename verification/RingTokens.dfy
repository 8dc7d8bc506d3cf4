/** The ring buffer under any interleaving of writers and readers (internal/util/ringbuffer.go).
    A reader receives a token before it takes the lock, so other goroutines can come in between. */
module RingTokens {
  import opened Basics
  import opened Histories
  import opened RingBuffer

  /** The shared state: the ring, the tokens in the channel, the readers past the token gate that do
      not hold the lock yet, and whether one of them has dereferenced nil.  `written` and `outs` record
      what was written, and what came out in order, with true for a value that was read and false
      for one that was overwritten. */
  datatype Proto<T> = Proto(ring: Ring<T>, tokens: nat, gate: nat, crashed: bool, written: seq<T>, outs: seq<(T, bool)>)

  datatype Event<T> = Write(v: T) | Receive | Lock

  ghost predicate Sane<T>(p: Proto<T>) {
    p.ring.Valid() && p.tokens <= p.ring.Size()
  }

  predicate Enabled<T>(p: Proto<T>, e: Event<T>) {
    !p.crashed && match e case Write(_) => true case Receive => p.tokens > 0 case Lock => p.gate > 0
  }

  ghost predicate Full<T>(p: Proto<T>)
    requires Sane(p)
  {
    p.ring.Count() == p.ring.Size()
  }

  ghost function Apply<T>(p: Proto<T>, e: Event<T>): (q: Proto<T>)
    requires Sane(p) && Enabled(p, e)
    ensures Sane(q) && q.ring.Size() == p.ring.Size()
  {
    match e
    case Write(v) =>
      WriteRefines(p.ring, v);
      p.(ring := p.ring.Write(v),
         tokens := if p.tokens < p.ring.Size() then p.tokens + 1 else p.tokens,
         written := p.written + [v],
         outs := p.outs + if Full(p) then [(p.ring.Contents()[0], false)] else [])
    case Receive => p.(tokens := p.tokens - 1, gate := p.gate + 1)
    case Lock =>
      if p.ring.Count() == 0 then p.(gate := p.gate - 1, crashed := true)
      else
        TakeRefines(p.ring);
        p.(ring := p.ring.Taken(), gate := p.gate - 1, outs := p.outs + [(p.ring.Contents()[0], true)])
  }

  ghost predicate Legal<T>(p: Proto<T>, run: seq<Event<T>>)
    requires Sane(p)
    decreases |run|
  {
    run == [] || (Enabled(p, run[0]) && Legal(Apply(p, run[0]), run[1..]))
  }

  ghost function Exec<T>(p: Proto<T>, run: seq<Event<T>>): (q: Proto<T>)
    requires Sane(p) && Legal(p, run)
    ensures Sane(q)
    decreases |run|
  {
    if run == [] then p else Exec(Apply(p, run[0]), run[1..])
  }

  ghost function Init<T>(size: nat): (p: Proto<T>)
    requires size > 0
    ensures Sane(p)
  {
    EmptyValid<T>(size);
    Proto(Empty(size), 0, 0, false, [], [])
  }

  // --- no lost wake-up ------------------------------------------------------------------------

  /** Tokens and readers past the gate, in excess of the stored values. */
  ghost function Surplus<T>(p: Proto<T>): int
    requires Sane(p)
  {
    p.tokens + p.gate - p.ring.Count()
  }

  lemma StepSurplus<T>(p: Proto<T>, e: Event<T>)
    requires Sane(p) && Enabled(p, e) && Surplus(p) >= 0
    ensures !Apply(p, e).crashed ==> Surplus(Apply(p, e)) >= 0
    ensures !(e.Write? && Full(p) && p.gate > 0) && Surplus(p) == 0 ==> !Apply(p, e).crashed && Surplus(Apply(p, e)) == 0
    ensures e.Write? && Full(p) && p.gate > 0 && Surplus(p) == 0 ==> Surplus(Apply(p, e)) == 1
    ensures !e.Write? && Surplus(p) > 0 && !Apply(p, e).crashed ==> Surplus(Apply(p, e)) == Surplus(p)
  {
    if e.Write? {
      WriteCount(p.ring, e.v);
    } else if e.Lock? && p.ring.Count() > 0 {
      TakeRefines(p.ring);
    }
  }

  /** Whatever the interleaving, there are at least as many tokens and readers past the gate as stored
      values: a stored value never waits for a reader that has no token to receive. */
  lemma {:induction false} NoLostWakeup<T>(p: Proto<T>, run: seq<Event<T>>)
    requires Sane(p) && Surplus(p) >= 0 && !p.crashed && Legal(p, run)
    ensures var q := Exec(p, run); !q.crashed ==> q.tokens + q.gate >= q.ring.Count()
    decreases |run|
  {
    if run != [] {
      StepSurplus(p, run[0]);
      if !Apply(p, run[0]).crashed {
        NoLostWakeup(Apply(p, run[0]), run[1..]);
      } else if |run| > 1 {
        assert !Enabled(Apply(p, run[0]), run[1]);
      }
    }
  }

  // --- when dereferencing is safe -------------------------------------------------------------

  /** Only readers move. */
  predicate ReadersOnly<T>(run: seq<Event<T>>) {
    forall i :: 0 <= i < |run| ==> !run[i].Write?
  }

  /** The readers alone can get to a nil dereference from here. */
  ghost predicate Crashable<T(!new)>(p: Proto<T>)
    requires Sane(p)
  {
    exists run: seq<Event<T>> :: ReadersOnly(run) && Legal(p, run) && Exec(p, run).crashed
  }

  lemma {:induction false} NoSurplusNoCrash<T>(p: Proto<T>, run: seq<Event<T>>)
    requires Sane(p) && !p.crashed && Surplus(p) == 0 && ReadersOnly(run) && Legal(p, run)
    ensures !Exec(p, run).crashed
    decreases |run|
  {
    if run != [] {
      StepSurplus(p, run[0]);
      NoSurplusNoCrash(Apply(p, run[0]), run[1..]);
    }
  }

  /** With a surplus the readers can drain the buffer and have one reader left. */
  lemma {:induction false} SurplusCrashes<T>(p: Proto<T>) returns (run: seq<Event<T>>)
    requires Sane(p) && !p.crashed && Surplus(p) > 0
    ensures ReadersOnly(run) && Legal(p, run) && Exec(p, run).crashed
    decreases p.tokens + p.gate, p.tokens
  {
    var e: Event<T> := if p.gate > 0 then Lock else Receive;
    StepSurplus(p, e);
    var q := Apply(p, e);
    if q.crashed {
      run := [e];
      assert run[1..] == [] && Exec(q, run[1..]) == q;
    } else {
      if e.Lock? {
        TakeRefines(p.ring);
      }
      var rest := SurplusCrashes(q);
      run := [e] + rest;
      assert run[1..] == rest;
    }
  }

  lemma CrashableIff<T(!new)>(p: Proto<T>)
    requires Sane(p) && !p.crashed && Surplus(p) >= 0
    ensures Crashable(p) <==> Surplus(p) > 0
  {
    if Surplus(p) > 0 {
      var run := SurplusCrashes(p);
    } else {
      forall run: seq<Event<T>> | ReadersOnly(run) && Legal(p, run)
        ensures !Exec(p, run).crashed
      {
        NoSurplusNoCrash(p, run);
      }
    }
  }

  /** No write overwrites a value while a reader is between its token and its lock. */
  ghost predicate NoOverwriteInGap<T>(p: Proto<T>, run: seq<Event<T>>)
    requires Sane(p) && Legal(p, run)
    decreases |run|
  {
    run == [] || (!(run[0].Write? && Full(p) && p.gate > 0) && NoOverwriteInGap(Apply(p, run[0]), run[1..]))
  }

  /** At no point of the run has a reader dereferenced nil or could the readers alone get there. */
  ghost predicate AlwaysSafe<T(!new)>(p: Proto<T>, run: seq<Event<T>>)
    requires Sane(p) && Legal(p, run)
    decreases |run|
  {
    !p.crashed && !Crashable(p) && (run == [] || AlwaysSafe(Apply(p, run[0]), run[1..]))
  }

  /** The exact condition: dereferencing is safe throughout a run if and only if no write overwrites a
      value in the gap. */
  lemma {:induction false} SafeIffNoOverwriteInGap<T(!new)>(p: Proto<T>, run: seq<Event<T>>)
    requires Sane(p) && !p.crashed && Surplus(p) == 0 && Legal(p, run)
    ensures AlwaysSafe(p, run) <==> NoOverwriteInGap(p, run)
    decreases |run|
  {
    CrashableIff(p);
    if run != [] {
      var q := Apply(p, run[0]);
      StepSurplus(p, run[0]);
      if run[0].Write? && Full(p) && p.gate > 0 {
        CrashableIff(q);
      } else {
        SafeIffNoOverwriteInGap(q, run[1..]);
      }
    }
  }

  /** For every buffer, from its creation. */
  lemma NextIsSafeIff<T(!new)>(size: nat, run: seq<Event<T>>)
    requires size > 0 && Legal(Init<T>(size), run)
    ensures AlwaysSafe(Init<T>(size), run) <==> NoOverwriteInGap(Init<T>(size), run)
  {
    EmptyValid<T>(size);
    SafeIffNoOverwriteInGap(Init<T>(size), run);
  }

  /** With one slot: write, receive, overwrite, lock, receive, lock ends in a nil dereference. */
  lemma NilDereference(a: int, b: int)
    ensures var run := [Write(a), Receive, Write(b), Lock, Receive, Lock];
            Legal(Init<int>(1), run) && Exec(Init<int>(1), run).crashed
  {
    var run := [Write(a), Receive, Write(b), Lock, Receive, Lock];
    var p0 := Init<int>(1);
    EmptyValid<int>(1);
    WriteCount(p0.ring, a);
    var p1 := Apply(p0, run[0]);
    var p2 := Apply(p1, run[1]);
    WriteCount(p2.ring, b);
    var p3 := Apply(p2, run[2]);
    TakeRefines(p3.ring);
    var p4 := Apply(p3, run[3]);
    var p5 := Apply(p4, run[4]);
    var p6 := Apply(p5, run[5]);
    assert p6.crashed;
    assert run[5..][1..] == [] && Legal(p5, run[5..]) && Exec(p5, run[5..]) == p6;
    assert run[4..][1..] == run[5..] && Legal(p4, run[4..]) && Exec(p4, run[4..]) == p6;
    assert run[3..][1..] == run[4..] && Legal(p3, run[3..]) && Exec(p3, run[3..]) == p6;
    assert run[2..][1..] == run[3..] && Legal(p2, run[2..]) && Exec(p2, run[2..]) == p6;
    assert run[1..][1..] == run[2..] && Legal(p1, run[1..]) && Exec(p1, run[1..]) == p6;
  }

  // --- nothing is lost or reordered -----------------------------------------------------------

  /** What came out and what is stored is what was written, in order. */
  ghost predicate Accounted<T>(p: Proto<T>)
    requires Sane(p)
  {
    p.written == Values(p.outs) + p.ring.Contents()
  }

  lemma WriteAccounted<T>(p: Proto<T>, v: T)
    requires Sane(p) && !p.crashed && Accounted(p)
    ensures Accounted(Apply(p, Write(v)))
  {
    var q, c := Apply(p, Write(v)), p.ring.Contents();
    WriteRefines(p.ring, v);
    if Full(p) {
      ValuesSnoc(p.outs, (c[0], false));
      assert c == [c[0]] + c[1..];
    } else {
      assert q.outs == p.outs;
    }
  }

  lemma LockAccounted<T>(p: Proto<T>)
    requires Sane(p) && Enabled(p, Lock) && Accounted(p)
    ensures Accounted(Apply(p, Lock))
  {
    if p.ring.Count() > 0 {
      var c := p.ring.Contents();
      TakeRefines(p.ring);
      ValuesSnoc(p.outs, (c[0], true));
      assert c == [c[0]] + c[1..];
    }
  }

  lemma {:induction false} RunAccounted<T>(p: Proto<T>, run: seq<Event<T>>)
    requires Sane(p) && Legal(p, run) && Accounted(p)
    ensures Accounted(Exec(p, run))
    decreases |run|
  {
    if run != [] {
      match run[0] {
        case Write(v) => WriteAccounted(p, v);
        case Receive =>
        case Lock => LockAccounted(p);
      }
      RunAccounted(Apply(p, run[0]), run[1..]);
    }
  }

  /** Over any run the reads are writes in order, every write was read, or overwritten, or is still stored,
      and the stored values are the latest ones. */
  lemma ReadsAreWritesInOrder<T>(size: nat, run: seq<Event<T>>)
    requires size > 0 && Legal(Init<T>(size), run)
    ensures var q := Exec(Init<T>(size), run);
            && InOrder(Only(q.outs, true), q.written)
            && |q.written| == |Only(q.outs, true)| + |Only(q.outs, false)| + |q.ring.Contents()|
            && q.ring.Contents() == q.written[|q.written| - |q.ring.Contents()|..]
  {
    var p := Init<T>(size);
    EmptyValid<T>(size);
    assert Accounted(p);
    RunAccounted(p, run);
    var q := Exec(p, run);
    OnlyInOrder(q.outs, true);
    InOrderOfLonger(Only(q.outs, true), Values(q.outs), q.ring.Contents());
  }
}
