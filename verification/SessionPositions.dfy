/**
 * The order of departure decided from the events alone: a simulation of the queue that holds, instead of a message,
 * its number in the order of acceptance.
 */
module SessionPositions {
  import opened SessionOrder
  import opened SessionWrites

  /** `inOrder` says that the numbers have left the queue as 0, 1, 2 and so on; `outcomes` is how their writes ended. */
  datatype Queue = Queue(writing: bool, waiting: seq<nat>, timers: nat, accepted: nat, inOrder: bool,
                         outcomes: seq<Outcome>)

  const EMPTY := Queue(false, [], 0, 0, true, [])

  function Arrival(q: Queue): Queue
  {
    if q.writing then q.(waiting := q.waiting + [q.accepted], timers := q.timers + 1, accepted := q.accepted + 1)
    else q.(writing := true, accepted := q.accepted + 1)
  }

  /** How many have left the queue. */
  function Gone(q: Queue): int
  {
    q.accepted - |q.waiting|
  }

  /** The numbers leave as from, from + 1 and so on. */
  predicate Consecutive(numbers: seq<nat>, from: int)
  {
    forall i :: 0 <= i < |numbers| ==> numbers[i] == from + i
  }

  function Simulated(q: Queue, e: Event): Queue
  {
    match e
    case Send(_) => Arrival(q)
    case Read(_, reply) => if reply == "" then q else Arrival(q)
    case WriteDone =>
      if !q.writing then q
      else if q.waiting == [] then q.(writing := false, outcomes := q.outcomes + [Completed])
      else q.(waiting := q.waiting[1..], inOrder := q.inOrder && q.waiting[0] == Gone(q),
              outcomes := q.outcomes + [Completed])
    case WriteFailed =>
      if !q.writing then q
      else q.(writing := false, waiting := [], inOrder := q.inOrder && Consecutive(q.waiting, Gone(q)),
              outcomes := q.outcomes + [Failed] + seq(|q.waiting|, _ => Discarded))
    case Timer =>
      if q.timers == 0 then q
      else if q.waiting == [] then q.(timers := q.timers - 1)
      else q.(waiting := q.waiting[1..] + [q.waiting[0]])
    case TimerAborted => if q.timers == 0 then q else q.(timers := q.timers - 1)
  }

  function Simulation(events: seq<Event>): Queue
  {
    if |events| == 0 then EMPTY else Simulated(Simulation(events[..|events| - 1]), events[|events| - 1])
  }

  /** The messages that the events offer, in order. */
  function Texts(events: seq<Event>): seq<string>
  {
    if |events| == 0 then [] else Texts(events[..|events| - 1]) + Joining(events[|events| - 1])
  }

  /** The simulated queue is the session's, number for message. */
  predicate Follows(q: Queue, st: State)
  {
    && q.writing == st.writeInProgress && q.timers == st.timers && q.accepted == |st.accepted|
    && |q.waiting| == |st.pending|
    && (forall i :: 0 <= i < |q.waiting| ==> q.waiting[i] < |st.accepted| && st.pending[i] == st.accepted[q.waiting[i]])
    && |q.outcomes| == |st.log| && (forall i :: 0 <= i < |st.log| ==> q.outcomes[i] == st.log[i].0)
  }

  /** Order among the numbers means order among the messages, and the reverse when no two messages are the same. */
  predicate Decides(q: Queue, st: State)
  {
    && (q.inOrder ==> DepartsInOrder(st))
    && (Distinct(st.accepted) && DepartsInOrder(st) ==> q.inOrder)
  }

  lemma ArrivalFollows(q: Queue, st: State, message: string)
    requires Follows(q, st) && Shape(st)
    ensures Follows(Arrival(q), Accepted(st, message)) && Accepted(st, message).accepted == st.accepted + [message]
  {
  }

  lemma WriteFollows(q: Queue, st: State, e: Event)
    requires Follows(q, st) && Shape(st) && (e == WriteDone || e == WriteFailed)
    ensures Follows(Simulated(q, e), Advance(st, e)) && Advance(st, e).accepted == st.accepted
  {
    hide Consecutive;
    if e == WriteDone && st.pending != [] {
      assert Simulated(q, e).waiting == q.waiting[1..] && Advance(st, e).pending == st.pending[1..];
    }
  }

  lemma TimerFollows(q: Queue, st: State, e: Event)
    requires Follows(q, st) && Shape(st) && (e == Timer || e == TimerAborted)
    ensures Follows(Simulated(q, e), Advance(st, e)) && Advance(st, e).accepted == st.accepted
  {
    if e == Timer && st.timers > 0 && st.pending != [] {
      FiringRotates(st);
      RotationFollows(q, st);
    }
    hide Step, Rotated;
  }

  lemma RotationFollows(q: Queue, st: State)
    requires Follows(q, st) && st.pending != []
    ensures Follows(q.(waiting := q.waiting[1..] + [q.waiting[0]]), st.(pending := Rotated(st.pending)))
  {
  }

  lemma SimulationFollows(q: Queue, st: State, e: Event)
    requires Follows(q, st) && Shape(st)
    ensures Follows(Simulated(q, e), Advance(st, e))
    ensures Advance(st, e).accepted == st.accepted + Joining(e)
    ensures !Enabled(st, e) ==> Simulated(q, e) == q
  {
    hide Consecutive, Arrival, Accepted;
    match e
    case Send(m) => ArrivalFollows(q, st, m);
    case Read(_, reply) =>
      if reply != "" {
        ArrivalFollows(q, st, reply);
      }
    case WriteDone => WriteFollows(q, st, e);
    case WriteFailed => WriteFollows(q, st, e);
    case Timer => TimerFollows(q, st, e);
    case TimerAborted => TimerFollows(q, st, e);
  }

  /** What a write handler takes is due by its number; then also by its text, and conversely for distinct texts. */
  lemma DueByNumber(q: Queue, st: State, e: Event)
    requires Inv(st) && Enabled(st, e) && Follows(q, st)
    ensures Simulated(q, e).inOrder ==> q.inOrder && ReleasesDue(st, e)
    ensures Distinct(st.accepted) && q.inOrder && ReleasesDue(st, e) ==> Simulated(q, e).inOrder
  {
    CountOfMessages(st);
    hide Departed, Inv, Order;
    assert Gone(q) == |Departed(st)|;
    match e
    case WriteFailed =>
      if ReleasesDue(st, e) && Distinct(st.accepted) {
        forall i | 0 <= i < |q.waiting|
          ensures q.waiting[i] == Gone(q) + i
        {
          assert st.pending[i] == st.accepted[Gone(q)..][i];
        }
      }
    case _ =>
  }

  lemma DistinctPart(s: seq<string>, t: seq<string>)
    ensures Distinct(s + t) ==> Distinct(s)
  {
    assert forall i :: 0 <= i < |s| ==> (s + t)[i] == s[i];
  }

  lemma DecidesAfter(q: Queue, st: State, e: Event)
    requires Inv(st) && Follows(q, st) && Decides(q, st)
    ensures Decides(Simulated(q, e), Advance(st, e))
  {
    hide Inv, Step, Simulated, Follows, DepartsInOrder, ReleasesDue, Joining;
    ShapeOf(st);
    SimulationFollows(q, st, e);
    if Enabled(st, e) {
      DepartsInOrderAfter(st, e);
      DueByNumber(q, st, e);
    }
    DistinctPart(st.accepted, Joining(e));
  }

  /** For all runs. The events' own texts are all that is accepted. */
  lemma {:induction false} SimulationDecides(events: seq<Event>)
    ensures Follows(Simulation(events), Run(events)) && Decides(Simulation(events), Run(events))
    ensures Run(events).accepted == Texts(events)
    decreases |events|
  {
    hide Inv, Follows, Decides, Advance, Simulated;
    if |events| == 0 {
      EmptyFollows();
    } else {
      var q, st, e := Simulation(events[..|events| - 1]), Run(events[..|events| - 1]), events[|events| - 1];
      SimulationDecides(events[..|events| - 1]);
      RunKeepsInv(events[..|events| - 1]);
      ShapeOf(st);
      SimulationFollows(q, st, e);
      DecidesAfter(q, st, e);
    }
  }

  lemma EmptyFollows()
    ensures Follows(EMPTY, INITIAL) && Decides(EMPTY, INITIAL)
  {
  }

  /** Different messages depart in the order of acceptance exactly when the simulation says so, whatever they say. */
  lemma NumbersInOrderExactlyWhen(events: seq<Event>)
    requires Distinct(Texts(events))
    ensures DepartsInOrder(Run(events)) <==> Simulation(events).inOrder
  {
    SimulationDecides(events);
    hide Distinct, DepartsInOrder, Run, Simulation, Follows;
  }

  // The close flag.

  /** Some read asked to close and replied. */
  predicate AskedToClose(events: seq<Event>)
  {
    exists i :: 0 <= i < |events| && events[i].Read? && events[i].close && events[i].reply != ""
  }

  /** A close is pending exactly from such a read on, whatever else happens. */
  lemma {:induction false} ClosePendingExactlyWhen(events: seq<Event>)
    ensures Run(events).isClosePending <==> AskedToClose(events)
    decreases |events|
  {
    hide Step, Enabled, AskedToClose;
    if |events| == 0 {
      NobodyAsked();
    } else {
      var st, e := Run(events[..|events| - 1]), events[|events| - 1];
      ClosePendingExactlyWhen(events[..|events| - 1]);
      AskedAfter(events);
      FlagAfter(st, e);
    }
  }

  lemma NobodyAsked()
    ensures !AskedToClose([]) && !INITIAL.isClosePending
  {
  }

  lemma AskedAfter(events: seq<Event>)
    requires |events| > 0
    ensures var e := events[|events| - 1];
            AskedToClose(events) <==> AskedToClose(events[..|events| - 1]) || (e.Read? && e.close && e.reply != "")
  {
    var before := events[..|events| - 1];
    if AskedToClose(before) {
      var i :| 0 <= i < |before| && before[i].Read? && before[i].close && before[i].reply != "";
      assert events[i] == before[i];
    }
    if AskedToClose(events) {
      var i :| 0 <= i < |events| && events[i].Read? && events[i].close && events[i].reply != "";
      if i < |before| {
        assert before[i] == events[i];
      }
    }
  }

  lemma FlagAfter(st: State, e: Event)
    ensures Advance(st, e).isClosePending <==> st.isClosePending || (e.Read? && e.close && e.reply != "")
  {
  }
}
