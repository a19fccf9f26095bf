/** The order in which a session's messages wait and depart. */
module SessionOrder {
  import CWord
  import opened SessionWrites

  /** All the pending messages are the same text. */
  predicate Uniform(pending: seq<string>)
  {
    forall i, j :: 0 <= i < |pending| && 0 <= j < |pending| ==> pending[i] == pending[j]
  }

  /** A rotation changes nothing exactly when the messages are all the same. */
  lemma RotationExactlyWhen(pending: seq<string>)
    requires |pending| > 0
    ensures Rotated(pending) == pending <==> Uniform(pending)
  {
    if Rotated(pending) == pending {
      forall i | 0 <= i < |pending|
        ensures pending[i] == pending[0]
      {
        SameAsFirst(pending, i);
      }
    }
  }

  lemma {:induction false} SameAsFirst(pending: seq<string>, i: nat)
    requires |pending| > 0 && Rotated(pending) == pending && i < |pending|
    ensures pending[i] == pending[0]
  {
    if i > 0 {
      SameAsFirst(pending, i - 1);
      assert Rotated(pending)[i - 1] == pending[i];
    }
  }

  /** Nothing has overtaken anything, nor is about to. */
  predicate Fifo(st: State)
  {
    Order(st) == st.accepted
  }

  /** The queue was in order at every point of the run. */
  predicate QueueAlwaysInOrder(events: seq<Event>)
  {
    Fifo(Run(events)) && (|events| == 0 || QueueAlwaysInOrder(events[..|events| - 1]))
  }

  /** No timer fired while different messages were waiting behind a write. */
  predicate HarmlessTimers(events: seq<Event>)
  {
    |events| == 0 ||
    (var st, e := Run(events[..|events| - 1]), events[|events| - 1];
     HarmlessTimers(events[..|events| - 1]) && (e == Timer && Enabled(st, e) ==> Uniform(st.pending)))
  }

  lemma FifoAfter(st: State, e: Event)
    requires Shape(st) && Enabled(st, e) && Fifo(st)
    ensures Fifo(Step(st, e)) <==> (e == Timer ==> Uniform(st.pending))
  {
    hide Uniform, Departed;
    OrderAfter(st, e);
    if e == Timer {
      if st.pending == [] {
        assert Uniform(st.pending) by { NothingPending(st.pending); }
      } else {
        RotationExactlyWhen(st.pending);
        assert Order(st)[|Departed(st)|..] == st.pending;
        assert Order(Step(st, e))[|Departed(st)|..] == Rotated(st.pending);
      }
    }
  }

  lemma NothingPending(pending: seq<string>)
    requires pending == []
    ensures Uniform(pending)
  {
  }

  /** The queue stays in order throughout exactly when no timer rotates unequal messages. */
  lemma {:induction false} QueueOrderExactlyWhen(events: seq<Event>)
    ensures QueueAlwaysInOrder(events) <==> HarmlessTimers(events)
    decreases |events|
  {
    hide Step, Fifo, Uniform, Order, Enabled;
    if |events| == 0 {
      assert Fifo(INITIAL) by { InitialFifo(); }
    } else {
      var st, e := Run(events[..|events| - 1]), events[|events| - 1];
      QueueOrderExactlyWhen(events[..|events| - 1]);
      RunKeepsInv(events[..|events| - 1]);
      if Fifo(st) && Enabled(st, e) {
        FifoAfter(st, e);
      }
    }
  }

  lemma InitialFifo()
    ensures Fifo(INITIAL)
  {
  }

  // The order of departure.

  /** The messages have departed in the order in which they were accepted. */
  predicate DepartsInOrder(st: State)
  {
    Departed(st) <= st.accepted
  }

  /** Whatever a write handler takes off the queue is what was accepted first of all that waits. */
  predicate ReleasesDue(st: State, e: Event)
  {
    var n := |Departed(st)|;
    match e
    case WriteDone => st.pending != [] ==> n < |st.accepted| && st.pending[0] == st.accepted[n]
    case WriteFailed => n <= |st.accepted| && st.pending == st.accepted[n..]
    case _ => true
  }

  predicate AlwaysReleasesDue(events: seq<Event>)
  {
    |events| == 0 ||
    (var st, e := Run(events[..|events| - 1]), events[|events| - 1];
     AlwaysReleasesDue(events[..|events| - 1]) && (Enabled(st, e) ==> ReleasesDue(st, e)))
  }

  lemma CountOfMessages(st: State)
    requires Inv(st)
    ensures |st.accepted| == |Departed(st)| + |st.pending|
  {
    assert |multiset(st.accepted)| == |multiset(Order(st))|;
  }

  /** What an event makes depart. */
  function Leaving(st: State, e: Event): seq<string>
  {
    match e
    case WriteDone => if st.pending == [] then [] else [st.pending[0]]
    case WriteFailed => st.pending
    case _ => if st.writeInProgress then [] else Joining(e)
  }

  lemma DepartedAfter(st: State, e: Event)
    requires Shape(st) && Enabled(st, e)
    ensures Departed(Step(st, e)) == Departed(st) + Leaving(st, e)
  {
    var next := Step(st, e);
    match e
    case Send(m) =>
    case Read(_, reply) =>
    case WriteDone =>
      assert Messages(next.log) == Messages(st.log) + [st.sentData];
    case WriteFailed => OrderAfterError(st);
    case Timer =>
    case TimerAborted =>
  }

  /** In terms of positions: what leaves is the next part of what has been accepted. */
  lemma DueIsNext(st: State, e: Event)
    requires Inv(st) && DepartsInOrder(st)
    ensures var d, x, a := |Departed(st)|, Leaving(st, e), st.accepted + Joining(e);
            d + |x| <= |a| && (ReleasesDue(st, e) <==> x == a[d..d + |x|])
  {
    CountOfMessages(st);
    NothingWaits(st);
    hide Departed, Inv, Order;
    var d, x, a := |Departed(st)|, Leaving(st, e), st.accepted + Joining(e);
    match e
    case WriteDone =>
      if st.pending != [] {
        assert a[d..d + 1] == [st.accepted[d]];
      }
    case WriteFailed => assert a == st.accepted;
    case _ =>
  }

  lemma NothingWaits(st: State)
    requires Inv(st)
    ensures !st.writeInProgress ==> st.pending == []
  {
  }

  lemma DepartsInOrderAfter(st: State, e: Event)
    requires Inv(st) && Enabled(st, e)
    ensures DepartsInOrder(Step(st, e)) <==> DepartsInOrder(st) && ReleasesDue(st, e)
  {
    hide Inv, Shape, Enabled, Step, Departed, ReleasesDue, Leaving, Joining;
    ShapeOf(st);
    DepartedAfter(st, e);
    OneWriteAtMost(st, e);
    CountOfMessages(st);
    LeavingFits(st, e);
    PrefixOf(Departed(st), Leaving(st, e), st.accepted, Joining(e));
    if DepartsInOrder(st) {
      DueIsNext(st, e);
    }
  }

  lemma LeavingFits(st: State, e: Event)
    requires Inv(st)
    ensures |Departed(st)| + |Leaving(st, e)| <= |st.accepted| + |Joining(e)|
  {
    CountOfMessages(st);
    hide Departed, Order;
  }

  lemma PrefixOf(d: seq<string>, x: seq<string>, a: seq<string>, y: seq<string>)
    requires |d| <= |a| && |d| + |x| <= |a| + |y|
    ensures d + x <= a + y <==> d <= a && x == (a + y)[|d|..|d| + |x|]
    ensures y == [] ==> a + y == a
  {
    if d <= a && x == (a + y)[|d|..|d| + |x|] {
      assert d + x == (a + y)[..|d| + |x|];
    }
    if d + x <= a + y {
      assert d == (d + x)[..|d|] == (a + y)[..|d|] == a[..|d|];
      assert x == (d + x)[|d|..];
    }
  }

  /** The messages depart in order exactly when every write handler finds the oldest waiting message at the front. */
  lemma {:induction false} DeparturesExactlyWhen(events: seq<Event>)
    ensures DepartsInOrder(Run(events)) <==> AlwaysReleasesDue(events)
    decreases |events|
  {
    hide Step, DepartsInOrder, ReleasesDue, Inv, Enabled;
    if |events| == 0 {
      assert DepartsInOrder(INITIAL) by { InitialDeparture(); }
    } else {
      var st, e := Run(events[..|events| - 1]), events[|events| - 1];
      DeparturesExactlyWhen(events[..|events| - 1]);
      RunKeepsInv(events[..|events| - 1]);
      if Enabled(st, e) {
        DepartsInOrderAfter(st, e);
      }
    }
  }

  lemma InitialDeparture()
    ensures DepartsInOrder(INITIAL)
  {
  }

  /** Harmless timers are enough for that, though not necessary. */
  lemma HarmlessTimersDepartInOrder(events: seq<Event>)
    requires HarmlessTimers(events)
    ensures DepartsInOrder(Run(events))
  {
    QueueOrderExactlyWhen(events);
    hide Run, Departed, HarmlessTimers;
  }

  /** No event restores an order of departure that is broken. */
  lemma {:induction false} DisorderStays(st: State, events: seq<Event>)
    requires Inv(st) && !DepartsInOrder(st)
    ensures !DepartsInOrder(RunFrom(st, events))
    decreases |events|
  {
    hide Inv, Step, DepartsInOrder, ReleasesDue, Enabled;
    if |events| > 0 {
      var before, e := RunFrom(st, events[..|events| - 1]), events[|events| - 1];
      DisorderStays(st, events[..|events| - 1]);
      RunFromKeepsInv(st, events[..|events| - 1]);
      if Enabled(before, e) {
        DepartsInOrderAfter(before, e);
      }
    }
  }

  function RotatedBy(pending: seq<string>, k: nat): seq<string>
    requires k <= |pending|
  {
    pending[k..] + pending[..k]
  }

  lemma RotatedOnceMore(pending: seq<string>, k: nat)
    requires |pending| > 0
    ensures Rotated(RotatedBy(pending, k % |pending|)) == RotatedBy(pending, (k + 1) % |pending|)
  {
    NextRemainder(k, |pending|);
    hide *;
    var n, j := |pending|, k % |pending|;
    if j + 1 == n {
      assert pending[j..] == [pending[j]];
    }
  }

  lemma NextRemainder(k: nat, n: nat)
    requires n > 0
    ensures (k + 1) % n == if k % n + 1 == n then 0 else k % n + 1
  {
    if k % n + 1 == n {
      CWord.DivUnique(k + 1, n, k / n + 1, 0);
    } else {
      CWord.DivUnique(k + 1, n, k / n, k % n + 1);
    }
  }

  /** Firings with n messages waiting rotate the queue by their number modulo n, and do nothing else. */
  lemma {:induction false} FiringsRotate(st: State, k: nat)
    requires Shape(st) && |st.pending| > 0 && st.timers > 0
    ensures RunFrom(st, Repeated(Timer, k)) == st.(pending := RotatedBy(st.pending, k % |st.pending|))
    decreases k
  {
    hide Advance, Rotated;
    if k > 0 {
      var turned := st.(pending := RotatedBy(st.pending, (k - 1) % |st.pending|));
      FiringsRotate(st, k - 1);
      assert Repeated(Timer, k)[..k - 1] == Repeated(Timer, k - 1);
      FiringRotates(turned);
      RotatedOnceMore(st.pending, k - 1);
      hide RotatedBy;
    }
  }

  lemma FiringRotates(st: State)
    requires Shape(st) && |st.pending| > 0 && st.timers > 0
    ensures Advance(st, Timer) == st.(pending := Rotated(st.pending))
  {
  }

  predicate Distinct(pending: seq<string>)
  {
    forall i, j :: 0 <= i < j < |pending| ==> pending[i] != pending[j]
  }

  /** Rounds of firings, each ended by the completion of a write. */
  function Rounds(firings: seq<nat>): seq<Event>
  {
    if |firings| == 0 then [] else Repeated(Timer, firings[0]) + [WriteDone] + Rounds(firings[1..])
  }

  /** Each round fires a multiple of the number of messages that are waiting then. */
  predicate FullTurns(firings: seq<nat>, waiting: nat)
    requires |firings| <= waiting
  {
    |firings| == 0 || (firings[0] % waiting == 0 && FullTurns(firings[1..], waiting - 1))
  }

  /**
   * With distinct messages waiting in order and nothing new added, the messages depart in order exactly when the timer
   * turns the queue round completely, any number of times, before each of them.
   */
  lemma {:induction false} RoundsInOrderExactlyWhen(st: State, firings: seq<nat>)
    requires Inv(st) && Fifo(st) && Distinct(st.pending) && st.timers > 0 && |firings| <= |st.pending|
    ensures DepartsInOrder(RunFrom(st, Rounds(firings))) <==> FullTurns(firings, |st.pending|)
    decreases |firings|
  {
    hide Inv, Fifo, DepartsInOrder, Distinct, Repeated;
    if |firings| == 0 {
      FifoDeparts(st);
    } else {
      var k := firings[0];
      var round := Repeated(Timer, k) + [WriteDone];
      var next := RunFrom(st, round);
      RoundEnds(st, k);
      RunInParts(st, round, Rounds(firings[1..]));
      assert Rounds(firings) == round + Rounds(firings[1..]);
      hide RunFrom, Rounds;
      if k % |st.pending| == 0 {
        RoundsInOrderExactlyWhen(next, firings[1..]);
      } else {
        DisorderStays(next, Rounds(firings[1..]));
      }
    }
  }

  lemma FifoDeparts(st: State)
    requires Fifo(st)
    ensures DepartsInOrder(st)
  {
    hide Departed;
  }

  lemma RoundEnds(st: State, k: nat)
    requires Inv(st) && Fifo(st) && Distinct(st.pending) && st.timers > 0 && |st.pending| > 0
    ensures var next := RunFrom(st, Repeated(Timer, k) + [WriteDone]);
            && Inv(next)
            && (k % |st.pending| == 0 ==>
                  Fifo(next) && next.pending == st.pending[1..] && Distinct(next.pending) && next.timers == st.timers)
            && (k % |st.pending| != 0 ==> !DepartsInOrder(next))
  {
    FiringsRotate(st, k);
    RunInParts(st, Repeated(Timer, k), [WriteDone]);
    RunFromKeepsInv(st, Repeated(Timer, k) + [WriteDone]);
    RunFromKeepsInv(st, Repeated(Timer, k));
    var turned := RunFrom(st, Repeated(Timer, k));
    assert RunFrom(turned, [WriteDone]) == Advance(turned, WriteDone);
    hide RunFrom, Inv, Distinct, Order, Departed, Repeated;
    if k % |st.pending| == 0 {
      assert turned == st;
      FullTurnEnds(st);
    } else {
      PartTurnEnds(st, turned, k % |st.pending|);
    }
  }

  lemma FullTurnEnds(st: State)
    requires Inv(st) && Fifo(st) && Distinct(st.pending) && |st.pending| > 0
    ensures var next := Advance(st, WriteDone);
            Fifo(next) && next.pending == st.pending[1..] && Distinct(next.pending) && next.timers == st.timers
  {
    FifoAfter(st, WriteDone);
    hide Order, Departed;
  }

  lemma PartTurnEnds(st: State, turned: State, r: nat)
    requires Inv(st) && Fifo(st) && Distinct(st.pending) && 0 < r < |st.pending|
    requires Inv(turned) && turned == st.(pending := RotatedBy(st.pending, r))
    ensures !DepartsInOrder(Advance(turned, WriteDone))
  {
    DepartsInOrderAfter(turned, WriteDone);
    assert Departed(turned) == Departed(st);
    assert st.accepted[|Departed(st)|] == st.pending[0];
    assert turned.pending[0] == st.pending[r];
    hide Departed, DepartsInOrder, Step;
  }
}
