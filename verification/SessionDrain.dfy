/** How a session comes to rest: its queue drains, and it closes. */
module SessionDrain {
  import opened SessionOrder
  import opened SessionPositions
  import opened SessionWrites

  // Draining the queue.

  function Completions(messages: seq<string>): seq<(Outcome, string)>
  {
    seq(|messages|, i requires 0 <= i < |messages| => (Completed, messages[i]))
  }

  /** The state after k writes have completed, up to the one that was in flight and all that waited but one. */
  lemma {:induction false} WritesComplete(st: State, k: nat)
    requires Shape(st) && st.writeInProgress && k <= |st.pending|
    ensures RunFrom(st, Repeated(WriteDone, k))
         == st.(sentData := if k == 0 then st.sentData else st.pending[k - 1], pending := st.pending[k..],
                log := st.log + Completions(([st.sentData] + st.pending)[..k]))
    decreases k
  {
    if k > 0 {
      WritesComplete(st, k - 1);
      assert Repeated(WriteDone, k)[..k - 1] == Repeated(WriteDone, k - 1);
      WriteCompletes(RunFrom(st, Repeated(WriteDone, k - 1)));
      assert Completions(([st.sentData] + st.pending)[..k])
          == Completions(([st.sentData] + st.pending)[..k - 1]) + [(Completed, ([st.sentData] + st.pending)[k - 1])];
      hide Advance;
    }
  }

  lemma WriteCompletes(st: State)
    requires Shape(st) && st.writeInProgress
    ensures st.pending != [] ==> Advance(st, WriteDone) == st.(sentData := st.pending[0], pending := st.pending[1..],
                                                               log := st.log + [(Completed, st.sentData)])
    ensures st.pending == [] ==> Advance(st, WriteDone) == st.(writeInProgress := false, outstanding := 0,
                                                               log := st.log + [(Completed, st.sentData)],
                                                               open := st.open && !st.isClosePending)
  {
  }

  /**
   * From any state, one completion more than messages wait empties the session: everything accepted is completed, in
   * the order of the queue, and a pending close is carried out exactly if a write was in progress.
   */
  lemma DrainRun(st: State)
    requires Shape(st)
    ensures var next := RunFrom(st, Repeated(WriteDone, |st.pending| + 1));
            && next.log == st.log + Completions(InFlight(st) + st.pending)
            && next.accepted == st.accepted && next.pending == [] && next.outstanding == 0
            && (next.open <==> st.open && !(st.writeInProgress && st.isClosePending))
  {
    var n := |st.pending|;
    if st.writeInProgress {
      WritesComplete(st, n);
      WriteCompletes(RunFrom(st, Repeated(WriteDone, n)));
      assert Repeated(WriteDone, n + 1)[..n] == Repeated(WriteDone, n);
      var all := [st.sentData] + st.pending;
      assert Completions(all) == Completions(all[..n]) + [(Completed, all[n])];
      hide Advance;
    } else {
      assert RunFrom(st, []) == st;
      assert Repeated(WriteDone, 1)[..0] == [];
      assert Completions([]) == [];
    }
  }

  lemma ThreeSent(a: string, b: string, c: string)
    ensures Run([Send(a), Send(b), Send(c)])
         == INITIAL.(sentData := a, pending := [b, c], writeInProgress := true, outstanding := 1, timers := 2,
                     accepted := [a, b, c])
  {
    var e1, e2, e3 := [Send(a)], [Send(a), Send(b)], [Send(a), Send(b), Send(c)];
    assert e1[..0] == [] && e2[..1] == e1 && e3[..2] == e2;
    RunUnfolds(e1); RunUnfolds(e2); RunUnfolds(e3);
    hide Run;
  }

  lemma ThreeTurned(a: string, b: string, c: string, k: nat)
    ensures Run([Send(a), Send(b), Send(c)] + Repeated(Timer, k))
         == Run([Send(a), Send(b), Send(c)]).(pending := if k % 2 == 0 then [b, c] else [c, b])
  {
    var sends := [Send(a), Send(b), Send(c)];
    ThreeSent(a, b, c);
    RunInParts(INITIAL, sends, Repeated(Timer, k));
    FiringsRotate(Run(sends), k);
    hide RunFrom, Repeated;
    assert RotatedBy([b, c], k % 2) == if k % 2 == 0 then [b, c] else [c, b];
  }

  /** Three messages sent, k firings during the first write, and three completions. */
  lemma FiringsThenDrain(a: string, b: string, c: string, k: nat)
    ensures var st := Run([Send(a), Send(b), Send(c)] + Repeated(Timer, k) + Repeated(WriteDone, 3));
            && st.accepted == [a, b, c]
            && st.log == Completions(if k % 2 == 0 then [a, b, c] else [a, c, b])
  {
    var events := [Send(a), Send(b), Send(c)] + Repeated(Timer, k);
    hide RunFrom, Repeated, Completions;
    ThreeSent(a, b, c);
    ThreeTurned(a, b, c, k);
    RunInParts(INITIAL, events, Repeated(WriteDone, 3));
    DrainRun(Run(events));
    assert [a] + Run(events).pending == if k % 2 == 0 then [a, b, c] else [a, c, b];
  }

  /** One firing then makes the third message overtake the second. */
  lemma OvertakingRun(a: string, b: string, c: string)
    requires b != c
    ensures var st := Run([Send(a), Send(b), Send(c)] + Repeated(Timer, 1) + Repeated(WriteDone, 3));
            st.accepted == [a, b, c] && !DepartsInOrder(st)
  {
    FiringsThenDrain(a, b, c, 1);
    var st := Run([Send(a), Send(b), Send(c)] + Repeated(Timer, 1) + Repeated(WriteDone, 3));
    hide Run, Repeated;
    assert Departed(st)[1] == c;
  }

  /** Two firings leave everything in order, although the first of them is not harmless. */
  lemma TwoTimersRun(a: string, b: string, c: string)
    requires b != c
    ensures var events := [Send(a), Send(b), Send(c)] + Repeated(Timer, 2) + Repeated(WriteDone, 3);
            && Run(events).log == Completions(Run(events).accepted)
            && !HarmlessTimers([Send(a), Send(b), Send(c)] + Repeated(Timer, 1))
  {
    FiringsThenDrain(a, b, c, 2);
    ThreeSent(a, b, c);
    var events := [Send(a), Send(b), Send(c)] + Repeated(Timer, 1);
    assert events[..3] == [Send(a), Send(b), Send(c)] && events[3] == Timer;
    var st := Run(events[..3]);
    assert st.pending[0] != st.pending[1];
    hide Run, Repeated;
  }

  // Closing.

  /**
   * After these events this one finds a reason to close the session, be it open or not: the timer fires or a write
   * completes with nothing queued and a close asked for, or a read asks to close without a reply.
   */
  predicate Closes(events: seq<Event>, e: Event)
  {
    var q := Simulation(events);
    || (((e == Timer && q.timers > 0) || (e == WriteDone && q.writing)) && q.waiting == [] && AskedToClose(events))
    || (e.Read? && e.close && e.reply == "")
  }

  predicate MeetsClose(events: seq<Event>)
  {
    |events| > 0 &&
    (MeetsClose(events[..|events| - 1]) || Closes(events[..|events| - 1], events[|events| - 1]))
  }

  lemma ClosesAfter(st: State, e: Event)
    requires Shape(st)
    ensures var next := Advance(st, e);
            && (!next.open <==>
                  || !st.open || (e.Read? && e.close && e.reply == "")
                  || (((e == Timer && st.timers > 0) || (e == WriteDone && st.writeInProgress))
                      && st.pending == [] && st.isClosePending))
            && (st.open && !next.open && InFlight(next) + next.pending != [] <==>
                  st.open && !next.open && st.writeInProgress && e != WriteDone)
  {
  }

  /** The last event, in terms of the events before it. */
  lemma LastEvent(events: seq<Event>)
    requires |events| > 0
    ensures var before, st, next := events[..|events| - 1], Run(events[..|events| - 1]), Run(events);
            && (!next.open <==> !st.open || Closes(before, events[|events| - 1]))
            && (st.open && !next.open && InFlight(next) + next.pending != [] <==>
                  st.open && Closes(before, events[|events| - 1]) && Simulation(before).writing
                  && events[|events| - 1] != WriteDone)
  {
    var before := events[..|events| - 1];
    hide Advance, Inv, Shape, Simulation, AskedToClose, Decides, InFlight;
    RunKeepsInv(before);
    ShapeOf(Run(before));
    SimulationDecides(before);
    ClosePendingExactlyWhen(before);
    ClosesAfter(Run(before), events[|events| - 1]);
  }

  /** After any run the session is closed exactly when some event found a reason to close it. */
  lemma {:induction false} ClosedExactlyWhen(events: seq<Event>)
    ensures !Run(events).open <==> MeetsClose(events)
    decreases |events|
  {
    hide Run, Closes, Simulation;
    if |events| > 0 {
      ClosedExactlyWhen(events[..|events| - 1]);
      LastEvent(events);
    } else {
      StartsOpen();
    }
  }

  lemma StartsOpen()
    ensures Run([]).open
  {
  }

  /** The event closes the session while a write is in flight. */
  predicate Cuts(events: seq<Event>, e: Event)
  {
    !MeetsClose(events) && Closes(events, e) && e != WriteDone && Simulation(events).writing
  }

  predicate MeetsCut(events: seq<Event>)
  {
    |events| > 0 &&
    (MeetsCut(events[..|events| - 1]) || Cuts(events[..|events| - 1], events[|events| - 1]))
  }

  /** The messages that were in flight or waiting when the session was closed. */
  function CutOff(events: seq<Event>): seq<string>
  {
    if |events| == 0 then []
    else
      var before, after := Run(events[..|events| - 1]), Run(events);
      if before.open && !after.open then InFlight(after) + after.pending else CutOff(events[..|events| - 1])
  }

  /**
   * Closing cuts messages off exactly when the timer fires with a close asked for, a write in flight and nothing
   * queued, or when a read asks to close without a reply during a write. It happens once at most.
   */
  lemma {:induction false} CutOffExactlyWhen(events: seq<Event>)
    ensures CutOff(events) != [] <==> MeetsCut(events)
    ensures MeetsCut(events) ==> MeetsClose(events)
    decreases |events|
  {
    hide Run, Closes, InFlight, Simulation;
    if |events| > 0 {
      CutOffExactlyWhen(events[..|events| - 1]);
      ClosedExactlyWhen(events[..|events| - 1]);
      LastEvent(events);
    }
  }

  /** Such a run: a reply that closes the session, a second message behind it, and the timer that message started. */
  lemma CutOffRun(reply: string, message: string)
    requires reply != ""
    ensures CutOff([Read(true, reply), Send(message), WriteDone, Timer]) == [message]
  {
    var e1, e2 := [Read(true, reply)], [Read(true, reply), Send(message)];
    var e3, e4 := [Read(true, reply), Send(message), WriteDone], [Read(true, reply), Send(message), WriteDone, Timer];
    assert e1[..0] == [] && e2[..1] == e1 && e3[..2] == e2 && e4[..3] == e3;
    RunUnfolds(e1); RunUnfolds(e2); RunUnfolds(e3); RunUnfolds(e4);
    hide Run;
  }

  // A close that a failing write leaves undone.

  /** Nothing is sent and nothing received. */
  predicate Quiet(events: seq<Event>)
  {
    forall i :: 0 <= i < |events| ==> !events[i].Send? && !events[i].Read?
  }

  /** The timer fires before the given number of waits has been aborted. */
  predicate WaitFires(events: seq<Event>, waits: nat)
  {
    |events| > 0 && waits > 0 &&
    match events[0]
    case Timer => true
    case TimerAborted => WaitFires(events[1..], waits - 1)
    case _ => WaitFires(events[1..], waits)
  }

  lemma {:induction false} ClosedStays(st: State, events: seq<Event>)
    requires !st.open
    ensures !RunFrom(st, events).open
    decreases |events|
  {
    if |events| > 0 {
      ClosedStays(st, events[..|events| - 1]);
    }
  }

  /** An idle session that quietly waits for its close is closed exactly by a timer wait that is left over. */
  lemma {:induction false} IdleClosesExactlyWhen(st: State, events: seq<Event>)
    requires Shape(st) && !st.writeInProgress && st.open && st.isClosePending && Quiet(events)
    ensures !RunFrom(st, events).open <==> WaitFires(events, st.timers)
    decreases |events|
  {
    if |events| == 0 {
    } else {
      var next := Advance(st, events[0]);
      FirstEvent(st, events);
      QuietRest(events);
      IdleStep(st, events[0]);
      hide Advance, RunFrom, Quiet, Shape;
      if next.open {
        IdleClosesExactlyWhen(next, events[1..]);
      } else {
        ClosedStays(next, events[1..]);
      }
    }
  }

  lemma FirstEvent(st: State, events: seq<Event>)
    requires |events| > 0
    ensures RunFrom(st, events) == RunFrom(Advance(st, events[0]), events[1..])
  {
    hide Advance;
    RunInParts(st, [events[0]], events[1..]);
    assert events == [events[0]] + events[1..];
    assert [events[0]][..0] == [];
  }

  lemma QuietRest(events: seq<Event>)
    requires Quiet(events) && |events| > 0
    ensures Quiet(events[1..]) && !events[0].Send? && !events[0].Read?
  {
  }

  lemma IdleStep(st: State, e: Event)
    requires Shape(st) && !st.writeInProgress && st.open && st.isClosePending && !e.Send? && !e.Read?
    ensures Advance(st, e) == match e
                              case Timer => if st.timers == 0 then st else st.(timers := st.timers - 1, open := false)
                              case TimerAborted => if st.timers == 0 then st else st.(timers := st.timers - 1)
                              case _ => st
  {
  }

  /**
   * A write fails while a close is pending. Until something is sent or received again, the close is carried out
   * exactly by a firing of one of the timer waits that were left over.
   */
  lemma FailureUndoesCloseExactlyWhen(st: State, events: seq<Event>)
    requires Shape(st) && st.writeInProgress && st.open && st.isClosePending && Quiet(events)
    ensures !RunFrom(Step(st, WriteFailed), events).open <==> WaitFires(events, st.timers)
  {
    hide RunFrom, Quiet, WaitFires;
    IdleClosesExactlyWhen(Step(st, WriteFailed), events);
  }

  /** Without a leftover wait the session then stays open for good, as far as quiet events go. */
  lemma UndoneCloseRun(reply: string, events: seq<Event>)
    requires reply != "" && Quiet(events)
    ensures Run([Read(true, reply), WriteFailed] + events).open
  {
    ReplyThenFailure(reply);
    RunInParts(INITIAL, [Read(true, reply), WriteFailed], events);
    var st := Run([Read(true, reply)]);
    FailureUndoesCloseExactlyWhen(st, events);
    hide RunFrom, Quiet;
  }

  lemma ReplyThenFailure(reply: string)
    requires reply != ""
    ensures var st := Run([Read(true, reply)]);
            && st == INITIAL.(sentData := reply, writeInProgress := true, outstanding := 1, isClosePending := true,
                              accepted := [reply])
            && Run([Read(true, reply), WriteFailed]) == Step(st, WriteFailed)
  {
    var e1, e2 := [Read(true, reply)], [Read(true, reply), WriteFailed];
    assert e1[..0] == [] && e2[..1] == e1;
    RunUnfolds(e1); RunUnfolds(e2);
    hide Run;
  }

  /** A message queued before the failure leaves a wait behind that still closes the session. */
  lemma LeftoverWaitRun(reply: string, message: string)
    requires reply != ""
    ensures !Run([Read(true, reply), Send(message), WriteFailed, Timer]).open
  {
    var e1, e2 := [Read(true, reply)], [Read(true, reply), Send(message)];
    var e3 := [Read(true, reply), Send(message), WriteFailed];
    var e4 := [Read(true, reply), Send(message), WriteFailed, Timer];
    assert e1[..0] == [] && e2[..1] == e1 && e3[..2] == e2 && e4[..3] == e3;
    RunUnfolds(e1); RunUnfolds(e2); RunUnfolds(e3); RunUnfolds(e4);
    hide Run;
  }

  /** So does the completion of a message sent after it. */
  lemma LaterMessageRun(reply: string, message: string)
    requires reply != ""
    ensures !Run([Read(true, reply), WriteFailed, Send(message), WriteDone]).open
  {
    var e2, e3 := [Read(true, reply), WriteFailed], [Read(true, reply), WriteFailed, Send(message)];
    var e4 := [Read(true, reply), WriteFailed, Send(message), WriteDone];
    assert e3[..2] == e2 && e4[..3] == e3;
    ReplyThenFailure(reply);
    RunUnfolds(e3); RunUnfolds(e4);
    hide Run;
  }
}
