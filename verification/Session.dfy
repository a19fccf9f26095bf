/** The asynchronous write state machine of a TCP session. */
module SessionWrites {

  datatype Outcome = Completed | Failed | Discarded

  /**
   * The session's fields, the operations it has started (outstanding writes, timer waits), and two histories: every
   * message accepted for sending, and every message that left, with its outcome.
   */
  datatype State = State(
    writeInProgress: bool, sentData: string, pending: seq<string>, isClosePending: bool, open: bool,
    outstanding: nat, timers: nat,
    accepted: seq<string>, log: seq<(Outcome, string)>)

  datatype Event =
    | Send(message: string)
    | Read(close: bool, reply: string)
    | WriteDone
    | WriteFailed
    | Timer
    | TimerAborted

  const INITIAL := State(false, "", [], false, true, 0, 0, [], [])

  /**
   * SendAsync: queue behind a write in progress and start a timer wait, or start a write. Setting the expiry time anew
   * cancels the waits before, but a handler that was queued already still runs as Timer, the others as TimerAborted.
   */
  function Sent(st: State, buffer: string): State
  {
    if st.writeInProgress then st.(pending := st.pending + [buffer], timers := st.timers + 1)
    else st.(sentData := buffer, writeInProgress := true, outstanding := st.outstanding + 1)
  }

  function Accepted(st: State, message: string): State
  {
    Sent(st.(accepted := st.accepted + [message]), message)
  }

  function Stopped(st: State): State
  {
    st.(open := false)
  }

  /** Send the front of the queue, then pop it: shared by the write handler and the timer handler. */
  function Resumed(st: State): State
  {
    if |st.pending| > 0 then
      var next := Sent(st, st.pending[0]);
      next.(pending := next.pending[1..])
    else if st.isClosePending then Stopped(st)
    else st
  }

  /** Write handlers run only for an outstanding write, timer handlers only for an outstanding wait. */
  predicate Enabled(st: State, e: Event)
  {
    match e
    case WriteDone => st.outstanding > 0
    case WriteFailed => st.outstanding > 0
    case Timer => st.timers > 0
    case TimerAborted => st.timers > 0
    case _ => true
  }

  function Finished(st: State, outcome: Outcome): State
    requires st.outstanding > 0
  {
    st.(writeInProgress := false, outstanding := st.outstanding - 1, log := st.log + [(outcome, st.sentData)])
  }

  function Discard(st: State): State
  {
    var dropped := seq(|st.pending|, i requires 0 <= i < |st.pending| => (Discarded, st.pending[i]));
    st.(pending := [], log := st.log + dropped)
  }

  function Step(st: State, e: Event): State
    requires Enabled(st, e)
  {
    match e
    case Send(message) => Accepted(st, message)
    case Read(close, reply) =>
      if reply != "" then
        var next := Accepted(st, reply);
        if close then next.(isClosePending := true) else next
      else if close then Stopped(st)
      else st
    case WriteDone => Resumed(Finished(st, Completed))
    case WriteFailed => Discard(Finished(st, Failed))
    case Timer => Resumed(st.(timers := st.timers - 1))
    case TimerAborted => st.(timers := st.timers - 1)
  }

  function Messages(log: seq<(Outcome, string)>): seq<string>
  {
    seq(|log|, i requires 0 <= i < |log| => log[i].1)
  }

  function InFlight(st: State): seq<string>
  {
    if st.writeInProgress then [st.sentData] else []
  }

  /** The messages that have left the queue, in the order in which they did. */
  function Departed(st: State): seq<string>
  {
    Messages(st.log) + InFlight(st)
  }

  /** All accepted messages: those that have departed, then those still waiting, in the order of the queue. */
  function Order(st: State): seq<string>
  {
    Departed(st) + st.pending
  }

  /** Nothing waits without a write in flight, and at most one write is outstanding. */
  predicate Shape(st: State)
  {
    && (!st.writeInProgress ==> st.pending == [])
    && st.outstanding == (if st.writeInProgress then 1 else 0)
  }

  predicate Inv(st: State)
  {
    && Shape(st)
    && multiset(st.accepted) == multiset(Order(st))
  }

  function Rotated(pending: seq<string>): seq<string>
    requires |pending| > 0
  {
    pending[1..] + [pending[0]]
  }

  /** What each event does to that order. */
  lemma OrderAfter(st: State, e: Event)
    requires Shape(st) && Enabled(st, e)
    ensures var next := Step(st, e);
            match e
            case Send(m) => Order(next) == Order(st) + [m]
            case Read(_, reply) => Order(next) == (if reply == "" then Order(st) else Order(st) + [reply])
            case WriteDone => Order(next) == Order(st)
            case WriteFailed => Order(next) == Order(st)
            case Timer =>
              Order(next) == Departed(st) + (if st.pending == [] then [] else Rotated(st.pending))
            case TimerAborted => Order(next) == Order(st)
  {
    match e
    case Send(m) =>
    case Read(_, reply) =>
    case WriteDone => OrderAfterWrite(st);
    case WriteFailed => OrderAfterError(st);
    case Timer => OrderAfterTimer(st);
    case TimerAborted =>
  }

  lemma OrderAfterWrite(st: State)
    requires Shape(st) && st.outstanding > 0
    ensures Order(Step(st, WriteDone)) == Order(st)
  {
    var next := Step(st, WriteDone);
    assert Messages(next.log) == Messages(st.log) + [st.sentData];
    hide Messages;
    if st.pending == [] {
      assert Order(next) == Messages(next.log);
    } else {
      assert Order(next) == Messages(next.log) + [st.pending[0]] + st.pending[1..];
    }
  }

  lemma OrderAfterError(st: State)
    requires Shape(st) && st.outstanding > 0
    ensures Order(Step(st, WriteFailed)) == Order(st)
  {
    assert Messages(Step(st, WriteFailed).log) == Messages(st.log) + [st.sentData] + st.pending;
  }

  /** Between handlers the timer never starts a write: it can only rotate the queue, or stop the session. */
  lemma OrderAfterTimer(st: State)
    requires Shape(st) && st.timers > 0
    ensures var next := Step(st, Timer);
            && next.outstanding == st.outstanding && InFlight(next) == InFlight(st) && next.log == st.log
            && next.pending == if st.pending == [] then [] else Rotated(st.pending)
  {
  }

  lemma StepKeepsInv(st: State, e: Event)
    requires Inv(st) && Enabled(st, e)
    ensures Inv(Step(st, e))
  {
    OrderAfter(st, e);
    OneWriteAtMost(st, e);
    hide Step, Order, Departed;
    if e == Timer && st.pending != [] {
      RotationKeepsMessages(st.pending);
    }
  }

  /** What an event adds to the accepted messages. */
  function Joining(e: Event): seq<string>
  {
    match e
    case Send(m) => [m]
    case Read(_, reply) => if reply == "" then [] else [reply]
    case _ => []
  }

  lemma OneWriteAtMost(st: State, e: Event)
    requires Shape(st) && Enabled(st, e)
    ensures var next := Step(st, e);
            Shape(next) && next.accepted == st.accepted + Joining(e)
  {
    hide Order;
    match e
    case Send(m) =>
    case Read(_, reply) =>
    case WriteDone =>
    case WriteFailed =>
    case Timer =>
    case TimerAborted =>
  }

  lemma RotationKeepsMessages(pending: seq<string>)
    requires |pending| > 0
    ensures multiset(Rotated(pending)) == multiset(pending)
  {
    assert pending == [pending[0]] + pending[1..];
  }

  /** An event that is not enabled does not happen. */
  function Advance(st: State, e: Event): State
  {
    if Enabled(st, e) then Step(st, e) else st
  }

  function RunFrom(st: State, events: seq<Event>): State
  {
    if |events| == 0 then st else Advance(RunFrom(st, events[..|events| - 1]), events[|events| - 1])
  }

  function Run(events: seq<Event>): State
  {
    RunFrom(INITIAL, events)
  }

  lemma {:induction false} RunInParts(st: State, a: seq<Event>, b: seq<Event>)
    ensures RunFrom(st, a + b) == RunFrom(RunFrom(st, a), b)
    decreases |b|
  {
    hide Advance;
    if |b| == 0 {
      assert a + b == a;
    } else {
      RunInParts(st, a, b[..|b| - 1]);
      assert (a + b)[..|a + b| - 1] == a + b[..|b| - 1];
    }
  }

  lemma {:induction false} RunFromKeepsInv(st: State, events: seq<Event>)
    requires Inv(st)
    ensures Inv(RunFrom(st, events))
    decreases |events|
  {
    hide Step, Inv;
    if |events| > 0 {
      var before, e := RunFrom(st, events[..|events| - 1]), events[|events| - 1];
      RunFromKeepsInv(st, events[..|events| - 1]);
      if Enabled(before, e) {
        StepKeepsInv(before, e);
      }
    }
  }

  /**
   * After any events: nothing is pending without a write in flight, at most one write is outstanding, and the
   * accepted messages are those completed, failed, discarded, in flight and pending.
   */
  lemma RunKeepsInv(events: seq<Event>)
    ensures Inv(Run(events))
  {
    hide RunFrom;
    RunFromKeepsInv(INITIAL, events);
  }

  lemma RunUnfolds(events: seq<Event>)
    requires |events| > 0
    ensures var st, e := Run(events[..|events| - 1]), events[|events| - 1];
            Run(events) == if Enabled(st, e) then Step(st, e) else st
    ensures Run([]) == INITIAL
  {
  }

  lemma ShapeOf(st: State)
    requires Inv(st)
    ensures Shape(st)
  {
  }

  function Repeated(e: Event, k: nat): seq<Event>
  {
    seq(k, _ => e)
  }

  /** The session object. Its ghost state adds the operations in progress and the histories to the fields. */
  class Session {
    var writeInProgress: bool
    var sentData: string
    var pendingMessages: seq<string>
    var isClosePending: bool
    var socketOpen: bool
    ghost var st: State

    ghost predicate Mirrors()
      reads this
    {
      && st.writeInProgress == writeInProgress && st.sentData == sentData && st.pending == pendingMessages
      && st.isClosePending == isClosePending && st.open == socketOpen
    }

    ghost predicate Valid()
      reads this
    {
      Mirrors() && Inv(st)
    }

    constructor ()
      ensures Valid() && st == INITIAL
    {
      writeInProgress := false;
      sentData := "";
      pendingMessages := [];
      isClosePending := false;
      socketOpen := true;
      st := INITIAL;
    }

    method SendAsync(buffer: string)
      requires Mirrors()
      modifies this
      ensures Mirrors() && st == Sent(old(st), buffer)
    {
      if writeInProgress {
        pendingMessages := pendingMessages + [buffer];
        // transferTimer.expires_from_now, transferTimer.async_wait
        st := st.(pending := st.pending + [buffer], timers := st.timers + 1);
      } else {
        sentData := buffer;
        writeInProgress := true;
        // async_write
        st := st.(sentData := buffer, writeInProgress := true, outstanding := st.outstanding + 1);
      }
    }

    method StopAsync()
      requires Mirrors()
      modifies this
      ensures Mirrors() && st == Stopped(old(st))
    {
      socketOpen := false;
      st := Stopped(st);
    }

    /** A message from outside, as the server's broadcast sends it. */
    method Broadcast(message: string)
      requires Valid()
      modifies this
      ensures Valid() && st == Step(old(st), Send(message))
    {
      hide Inv;
      StepKeepsInv(st, Send(message));
      st := st.(accepted := st.accepted + [message]);
      SendAsync(message);
    }

    method HandleRead(error: bool, close: bool, reply: string)
      requires Valid()
      modifies this
      ensures Valid() && st == if error then old(st) else Step(old(st), Read(close, reply))
    {
      hide Inv;
      if !error {
        StepKeepsInv(st, Read(close, reply));
        if reply != "" {
          st := st.(accepted := st.accepted + [reply]);
          SendAsync(reply);
          if close {
            isClosePending := true;
            st := st.(isClosePending := true);
          }
        } else {
          if close {
            StopAsync();
          }
        }
      }
    }

    method HandleTransferTimer(error: bool)
      requires Valid() && st.timers > 0
      modifies this
      ensures Valid() && st == Step(old(st), if error then TimerAborted else Timer)
    {
      hide Inv;
      StepKeepsInv(st, if error then TimerAborted else Timer);
      st := st.(timers := st.timers - 1);
      if !error {
        Resume();
      }
    }

    /** The common tail of the timer and write handlers. */
    method Resume()
      requires Mirrors()
      modifies this
      ensures Mirrors() && st == Resumed(old(st))
    {
      if |pendingMessages| > 0 {
        SendAsync(pendingMessages[0]);
        pendingMessages := pendingMessages[1..];
        st := st.(pending := st.pending[1..]);
      } else {
        if isClosePending {
          StopAsync();
        }
      }
    }

    method HandleWrite(error: bool)
      requires Valid() && st.outstanding > 0
      modifies this
      ensures Valid() && st == Step(old(st), if error then WriteFailed else WriteDone)
    {
      hide Inv;
      StepKeepsInv(st, if error then WriteFailed else WriteDone);
      writeInProgress := false;
      st := Finished(st, if error then Failed else Completed);
      if !error {
        Resume();
      } else {
        pendingMessages := [];
        st := Discard(st);
      }
    }
  }
}
