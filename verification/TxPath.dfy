/**
 * The transmit queue between AddToTxQueue and the sender's loop. Each access to the queue is one atomic step;
 * any interleaving of the two threads is a sequence of these steps.
 */
module TxPath {
  import opened UartFrame

  const TX_QUEUE_MAX_SIZE := 100

  /** Where the sender stands in the body of its loop. */
  datatype Sender =
    | AtLoopHead
    | SawNonEmpty
    | Holding(index: nat, frame: CanData, dropsBefore: nat)
    | Wrote(index: nat, dropsBefore: nat)

  /**
   * The queue and the sender, with histories: every accepted frame, how many frames have left the queue, the
   * indices (into `accepted`) of the frames written to the port, dropped by overflow, and popped unwritten.
   */
  datatype Tx = Tx(queue: seq<CanData>, sender: Sender, accepted: seq<CanData>, left: nat,
                   written: seq<nat>, wire: seq<CanData>, dropped: seq<nat>, skipped: seq<nat>, fault: bool)

  datatype Event = Add(frame: CanData) | SenderStep

  const INITIAL := Tx([], AtLoopHead, [], 0, [], [], [], [], false)

  function Step(st: Tx, e: Event): Tx
  {
    match e
    case Add(frame) =>
      var q, all := st.queue + [frame], st.accepted + [frame];
      if |q| > TX_QUEUE_MAX_SIZE then
        st.(queue := q[1..], accepted := all, left := st.left + 1, dropped := st.dropped + [st.left])
      else st.(queue := q, accepted := all)
    case SenderStep =>
      match st.sender
      case AtLoopHead => if |st.queue| == 0 then st else st.(sender := SawNonEmpty)
      case SawNonEmpty =>
        if |st.queue| == 0 then st.(fault := true)
        else st.(sender := Holding(st.left, st.queue[0], |st.dropped|))
      case Holding(i, frame, drops) =>
        st.(sender := Wrote(i, drops), written := st.written + [i], wire := st.wire + [frame])
      case Wrote(i, drops) =>
        if |st.queue| == 0 then st.(fault := true)
        else st.(sender := AtLoopHead, queue := st.queue[1..], left := st.left + 1,
                 skipped := if st.left == i then st.skipped else st.skipped + [st.left])
  }

  predicate Increasing(s: seq<nat>)
  {
    forall i, j :: 0 <= i < j < |s| ==> s[i] < s[j]
  }

  /** The written frames are accepted ones, in the order of acceptance and none twice. */
  predicate WireInOrder(st: Tx)
  {
    && |st.wire| == |st.written|
    && Increasing(st.written)
    && forall k :: 0 <= k < |st.written| ==> st.written[k] < |st.accepted| && st.wire[k] == st.accepted[st.written[k]]
  }

  /**
   * Every frame that left the queue was written, dropped by overflow, or popped unwritten; one popped unwritten
   * is neither of the others.
   */
  predicate Accounted(st: Tx)
  {
    && (forall k :: 0 <= k < st.left ==> k in st.written || k in st.dropped || k in st.skipped)
    && (forall k :: k in st.skipped ==> k < st.left && k !in st.written && k !in st.dropped)
    && (forall k :: k in st.dropped ==> k < st.left)
  }

  predicate SenderOk(st: Tx)
  {
    match st.sender
    case AtLoopHead => forall k :: k in st.written ==> k < st.left
    case SawNonEmpty => |st.queue| > 0 && forall k :: k in st.written ==> k < st.left
    case Holding(i, frame, drops) =>
      && |st.queue| > 0
      && i < |st.accepted| && frame == st.accepted[i]
      && drops <= |st.dropped| && st.left == i + |st.dropped| - drops
      && (forall k :: k in st.written ==> k < i)
      && (forall k :: k in st.skipped ==> k < i)
      && (forall k :: i <= k < st.left ==> k in st.dropped)
    case Wrote(i, drops) =>
      && |st.queue| > 0
      && drops <= |st.dropped| && st.left == i + |st.dropped| - drops
      && |st.written| > 0 && st.written[|st.written| - 1] == i
      && (forall k :: k in st.written ==> k <= i)
      && (forall k :: k in st.skipped ==> k < i)
  }

  /** Frames written whose pop is still to come. */
  function Owed(st: Tx): nat
  {
    if st.sender.Wrote? then 1 else 0
  }

  predicate Inv(st: Tx)
  {
    && !st.fault
    && |st.queue| <= TX_QUEUE_MAX_SIZE
    && st.left <= |st.accepted|
    && st.queue == st.accepted[st.left..]
    && |st.accepted| + Owed(st) == |st.written| + |st.dropped| + |st.queue|
    && WireInOrder(st)
    && Accounted(st)
    && SenderOk(st)
  }

  lemma InitialInv()
    ensures Inv(INITIAL)
  {
  }

  lemma StepKeepsInv(st: Tx, e: Event)
    requires Inv(st)
    ensures Inv(Step(st, e))
  {
    match e
    case Add(frame) => AddKeepsInv(st, frame);
    case SenderStep =>
      match st.sender
      case AtLoopHead =>
      case SawNonEmpty =>
      case Holding(i, frame, drops) => WriteKeepsInv(st);
      case Wrote(i, drops) => PopKeepsInv(st);
  }

  lemma AddKeepsInv(st: Tx, frame: CanData)
    requires Inv(st)
    ensures Inv(Step(st, Add(frame)))
  {
    var next := Step(st, Add(frame));
    assert next.queue == next.accepted[next.left..];
    assert WireInOrder(next);
    assert forall k :: k in next.dropped <==> k in st.dropped || (next.left > st.left && k == st.left);
    assert Accounted(next);
    assert SenderOk(next);
  }

  lemma WriteKeepsInv(st: Tx)
    requires Inv(st) && st.sender.Holding?
    ensures Inv(Step(st, SenderStep))
  {
    var next := Step(st, SenderStep);
    assert forall k :: k in next.written <==> k in st.written || k == st.sender.index;
    assert forall n :: 0 <= n < |st.written| ==> st.written[n] in st.written;
    assert WireInOrder(next);
    assert Accounted(next);
    assert SenderOk(next);
  }

  lemma PopKeepsInv(st: Tx)
    requires Inv(st) && st.sender.Wrote?
    ensures Inv(Step(st, SenderStep))
  {
    var next := Step(st, SenderStep);
    assert next.queue == next.accepted[next.left..];
    assert st.sender.index in st.written;
    assert forall k :: k in next.skipped <==> k in st.skipped || (st.left != st.sender.index && k == st.left);
    assert Accounted(next);
    assert SenderOk(next);
  }

  function Run(events: seq<Event>): Tx
  {
    if |events| == 0 then INITIAL else Step(Run(events[..|events| - 1]), events[|events| - 1])
  }

  /**
   * Every interleaving: no pop meets an empty queue, at most 100 frames are queued, the wire carries accepted
   * frames in order, and at the loop head accepted = written + overflow-dropped + queued.
   */
  lemma {:induction false} EveryInterleavingIsSafe(events: seq<Event>)
    ensures var st := Run(events);
            && Inv(st)
            && (st.sender.AtLoopHead? ==> |st.accepted| == |st.written| + |st.dropped| + |st.queue|)
    decreases |events|
  {
    if |events| == 0 {
      InitialInv();
    } else {
      EveryInterleavingIsSafe(events[..|events| - 1]);
      StepKeepsInv(Run(events[..|events| - 1]), events[|events| - 1]);
    }
  }

  /**
   * A frame is dropped exactly when one is added while 100 are queued, whatever the sender is doing, and then it is the
   * oldest; any other frame added joins the end. The sender drops nothing, and removes the front only in its pop.
   */
  lemma DropsExactlyWhen(st: Tx, e: Event)
    requires Inv(st)
    ensures var next := Step(st, e);
            && (next.dropped != st.dropped <==> e.Add? && |st.queue| == 100)
            && (e.Add? ==>
                  && next.accepted == st.accepted + [e.frame] && next.sender == st.sender
                  && next.written == st.written && next.wire == st.wire && next.skipped == st.skipped
                  && next.queue == (if |st.queue| == 100 then st.queue[1..] else st.queue) + [e.frame]
                  && next.dropped == if |st.queue| == 100 then st.dropped + [st.left] else st.dropped)
            && (e.SenderStep? ==>
                  next.accepted == st.accepted && next.queue == if st.sender.Wrote? then st.queue[1..] else st.queue)
  {
    hide Accounted, WireInOrder, SenderOk;
    if e.SenderStep? {
      NeverEmptyAtPop(st);
    }
  }

  lemma NeverEmptyAtPop(st: Tx)
    requires Inv(st)
    ensures st.sender.Wrote? || st.sender.SawNonEmpty? ==> |st.queue| > 0
  {
    hide Accounted, WireInOrder;
  }

  /** How often a frame was added while 100 were queued. */
  function FullAdds(events: seq<Event>): nat
  {
    if |events| == 0 then 0
    else
      FullAdds(events[..|events| - 1])
      + if events[|events| - 1].Add? && |Run(events[..|events| - 1]).queue| == 100 then 1 else 0
  }

  /** Over any run, that is the number of frames dropped. */
  lemma {:induction false} DropsInRun(events: seq<Event>)
    ensures |Run(events).dropped| == FullAdds(events)
    decreases |events|
  {
    hide Run, Inv, Step;
    RunUnfolds(events);
    if |events| > 0 {
      var before := Run(events[..|events| - 1]);
      DropsInRun(events[..|events| - 1]);
      EveryInterleavingIsSafe(events[..|events| - 1]);
      DropsExactlyWhen(before, events[|events| - 1]);
    } else {
      NothingDropped();
    }
  }

  lemma NothingDropped()
    ensures INITIAL.dropped == []
  {
  }

  predicate Busy(st: Tx)
  {
    st.sender.Holding? || st.sender.Wrote?
  }

  /** No frame was added to a full queue while the sender was between its front and its pop. */
  predicate QuietWhileBusy(events: seq<Event>)
  {
    |events| == 0 ||
    (var st := Run(events[..|events| - 1]);
     && QuietWhileBusy(events[..|events| - 1])
     && !(events[|events| - 1].Add? && Busy(st) && |st.queue| == TX_QUEUE_MAX_SIZE))
  }

  function DropsSinceFront(st: Tx): int
  {
    match st.sender
    case Holding(_, _, drops) => |st.dropped| - drops
    case Wrote(_, drops) => |st.dropped| - drops
    case _ => 0
  }

  /** Whenever the sender is at its loop head, frames were lost unwritten if and only if the run was not quiet. */
  lemma {:induction false} LossExactlyWhenNotQuiet(events: seq<Event>)
    ensures var st := Run(events);
            QuietWhileBusy(events) <==> st.skipped == [] && DropsSinceFront(st) == 0
    ensures Run(events).sender.AtLoopHead? ==> (QuietWhileBusy(events) <==> Run(events).skipped == [])
    decreases |events|
  {
    hide Run, Accounted, WireInOrder;
    if |events| > 0 {
      var before := Run(events[..|events| - 1]);
      LossExactlyWhenNotQuiet(events[..|events| - 1]);
      EveryInterleavingIsSafe(events[..|events| - 1]);
      RunUnfolds(events);
    } else {
      RunUnfolds(events);
    }
  }

  lemma RunUnfolds(events: seq<Event>)
    ensures |events| == 0 ==> Run(events) == INITIAL
    ensures |events| > 0 ==> Run(events) == Step(Run(events[..|events| - 1]), events[|events| - 1])
  {
  }

  /** A frame popped unwritten never reaches the wire, whatever happens next. */
  lemma {:induction false} SkippedIsLost(events: seq<Event>, more: seq<Event>, k: nat)
    requires k in Run(events).skipped
    ensures k in Run(events + more).skipped && k !in Run(events + more).written
    decreases |more|
  {
    hide Run, WireInOrder, SenderOk;
    EveryInterleavingIsSafe(events + more);
    if |more| == 0 {
      assert events + more == events;
    } else {
      assert (events + more)[..|events + more| - 1] == events + more[..|more| - 1];
      SkippedIsLost(events, more[..|more| - 1], k);
      RunUnfolds(events + more);
    }
  }

  function Adds(frames: seq<CanData>): seq<Event>
  {
    seq(|frames|, i requires 0 <= i < |frames| => Add(frames[i]))
  }

  lemma {:induction false} RunOfAdds(frames: seq<CanData>)
    requires |frames| <= TX_QUEUE_MAX_SIZE
    ensures Run(Adds(frames)) == INITIAL.(queue := frames, accepted := frames)
    decreases |frames|
  {
    if |frames| > 0 {
      var n := |frames| - 1;
      assert Adds(frames)[..n] == Adds(frames[..n]);
      RunOfAdds(frames[..n]);
      assert frames[..n] + [frames[n]] == frames;
    }
  }

  /** A run that loses a frame: the queue overflows once while the sender is between front and pop. */
  lemma LosingRun(frames: seq<CanData>, extra: CanData)
    requires |frames| == TX_QUEUE_MAX_SIZE
    ensures var st := Run(Adds(frames) + [SenderStep, SenderStep, Add(extra), SenderStep, SenderStep]);
            st.written == [0] && st.dropped == [0] && st.skipped == [1] && st.sender == AtLoopHead
  {
    var e0 := Adds(frames);
    var e1, e2 := e0 + [SenderStep], e0 + [SenderStep, SenderStep];
    var e3 := e0 + [SenderStep, SenderStep, Add(extra)];
    var e4 := e0 + [SenderStep, SenderStep, Add(extra), SenderStep];
    var e5 := e0 + [SenderStep, SenderStep, Add(extra), SenderStep, SenderStep];
    RunOfAdds(frames);
    assert e1[..|e1| - 1] == e0 && e2[..|e2| - 1] == e1 && e3[..|e3| - 1] == e2;
    assert e4[..|e4| - 1] == e3 && e5[..|e5| - 1] == e4;
    hide Run;
    RunUnfolds(e1);
    RunUnfolds(e2);
    RunUnfolds(e3);
    RunUnfolds(e4);
    RunUnfolds(e5);
  }

  /** One uninterrupted turn of the sender's loop. */
  function Turn(st: Tx): Tx
  {
    Step(Step(Step(Step(st, SenderStep), SenderStep), SenderStep), SenderStep)
  }

  lemma TurnSendsFront(st: Tx)
    requires Inv(st) && st.sender.AtLoopHead? && |st.queue| > 0
    ensures Turn(st) == st.(queue := st.queue[1..], left := st.left + 1, written := st.written + [st.left],
                            wire := st.wire + [st.queue[0]])
    ensures Inv(Turn(st))
  {
    var s1 := Step(st, SenderStep);
    var s2 := Step(s1, SenderStep);
    var s3 := Step(s2, SenderStep);
    StepKeepsInv(st, SenderStep);
    StepKeepsInv(s1, SenderStep);
    StepKeepsInv(s2, SenderStep);
    StepKeepsInv(s3, SenderStep);
  }
}
