/** The receive path as a transition system: bytes arrive in an overwriting ring, the worker parses it. */
module RxPath {
  import opened CWord
  import opened UartFrame

  const RX_CIRCBUFF_SIZE := 1024

  /** `received` and `delivered` are the histories of all bytes and all AddToRxQueue calls. */
  datatype Rx = Rx(ring: seq<U8>, received: seq<U8>, delivered: seq<Delivery>) {
    /** Stream position of the first byte in the ring. */
    function Base(): nat
    {
      if |ring| <= |received| then |received| - |ring| else 0
    }
  }

  datatype Event = Arrive(chunk: seq<U8>) | Process

  /** circular_buffer::insert at the end keeps the last bytes that fit. */
  function Appended(ring: seq<U8>, chunk: seq<U8>): (r: seq<U8>)
    ensures |r| == if |ring| + |chunk| <= 1024 then |ring| + |chunk| else 1024
  {
    var s := ring + chunk;
    if |s| <= RX_CIRCBUFF_SIZE then s else s[|s| - RX_CIRCBUFF_SIZE..]
  }

  function Step(crc: Crc, st: Rx, e: Event): Rx
  {
    match e
    case Arrive(chunk) => Rx(Appended(st.ring, chunk), st.received + chunk, st.delivered)
    case Process => Rx(Residue(st.ring), st.received, st.delivered + Parse(crc, st.ring, st.Base()))
  }

  ghost predicate Inv(crc: Crc, st: Rx)
  {
    && |st.ring| <= RX_CIRCBUFF_SIZE
    && |st.ring| <= |st.received|
    && st.ring == st.received[st.Base()..]
    && WellDelivered(crc, st.received, st.delivered, 0, st.Base())
  }

  const EMPTY := Rx([], [], [])

  function Run(crc: Crc, events: seq<Event>): Rx
  {
    if |events| == 0 then EMPTY else Step(crc, Run(crc, events[..|events| - 1]), events[|events| - 1])
  }

  /** After any events at all, overwriting ones included, the invariant holds. */
  lemma {:induction false} RunKeepsInv(crc: Crc, events: seq<Event>)
    ensures Inv(crc, Run(crc, events))
  {
    hide Inv, Step;
    if |events| == 0 {
      EmptyInv(crc);
    } else {
      RunKeepsInv(crc, events[..|events| - 1]);
      StepKeepsInv(crc, Run(crc, events[..|events| - 1]), events[|events| - 1]);
    }
  }

  lemma EmptyInv(crc: Crc)
    ensures Inv(crc, EMPTY)
  {
    hide Genuine;
  }

  /** Every step, overwriting or not, keeps the ring a suffix of the stream and the deliveries genuine and ordered. */
  lemma StepKeepsInv(crc: Crc, st: Rx, e: Event)
    requires Inv(crc, st)
    ensures Inv(crc, Step(crc, st, e))
  {
    hide Parse, Residue, Genuine;
    var next := Step(crc, st, e);
    match e
    case Arrive(chunk) =>
      SuffixAfterAppend(st.received, st.ring, chunk);
      GenuineInLongerStream(crc, st.received, chunk, st.delivered, st.Base(), next.Base());
    case Process =>
      ResidueIsSuffix(st.ring);
      assert st.ring == st.received[st.Base()..|st.received|];
      ParseWellDelivered(crc, st.received, st.Base(), |st.received|);
      WellDeliveredInParts(crc, st.received, st.delivered, Parse(crc, st.ring, st.Base()), 0, st.Base(), next.Base());
  }

  lemma SuffixAfterAppend(stream: seq<U8>, ring: seq<U8>, chunk: seq<U8>)
    requires |ring| <= |stream| && ring == stream[|stream| - |ring|..]
    ensures var r, s := Appended(ring, chunk), stream + chunk;
            |r| <= |s| && r == s[|s| - |r|..] && |s| - |r| >= |stream| - |ring|
  {
    var s := stream + chunk;
    assert ring + chunk == s[|stream| - |ring|..];
  }

  lemma GenuineInLongerStream(crc: Crc, s: seq<U8>, t: seq<U8>, ds: seq<Delivery>, to: nat, to': nat)
    requires WellDelivered(crc, s, ds, 0, to) && to <= to'
    ensures WellDelivered(crc, s + t, ds, 0, to')
  {
    forall i | 0 <= i < |ds|
      ensures Genuine(crc, s + t, ds[i])
    {
      assert (s + t)[ds[i].pos..ds[i].pos + FRAME_SIZE] == s[ds[i].pos..ds[i].pos + FRAME_SIZE];
    }
  }

  /** At most `limit` bytes arrive between two processing runs, `pending` of them so far. */
  predicate Paced(events: seq<Event>, limit: nat)
  {
    |events| == 0 || (Pending(events) <= limit && Paced(events[..|events| - 1], limit))
  }

  /** Bytes that arrived since the last processing run. */
  function Pending(events: seq<Event>): nat
  {
    if |events| == 0 then 0
    else match events[|events| - 1]
      case Process => 0
      case Arrive(chunk) => Pending(events[..|events| - 1]) + |chunk|
  }

  function Bytes(events: seq<Event>): seq<U8>
  {
    if |events| == 0 then []
    else match events[|events| - 1]
      case Process => Bytes(events[..|events| - 1])
      case Arrive(chunk) => Bytes(events[..|events| - 1]) + chunk
  }

  lemma RingFits(crc: Crc, events: seq<Event>)
    ensures |Run(crc, events).ring| <= |Run(crc, events).received|
  {
    hide Run, WellDelivered;
    RunKeepsInv(crc, events);
  }

  /** No arrival overflows the ring. */
  predicate NeverOverwrites(crc: Crc, events: seq<Event>)
  {
    |events| == 0 ||
    (var st, e := Run(crc, events[..|events| - 1]), events[|events| - 1];
     NeverOverwrites(crc, events[..|events| - 1])
     && (e.Arrive? ==> |st.ring| + |e.chunk| <= RX_CIRCBUFF_SIZE))
  }

  /** What was delivered and what the ring would still yield is the parse of everything received. */
  predicate IsOneParse(crc: Crc, st: Rx)
  {
    && st.delivered + Parse(crc, st.ring, st.Base()) == Parse(crc, st.received, 0)
    && Residue(st.ring) == Residue(st.received)
  }

  lemma ArrivalKeepsParse(crc: Crc, st: Rx, chunk: seq<U8>)
    requires |st.ring| <= |st.received| && |st.ring| + |chunk| <= RX_CIRCBUFF_SIZE && IsOneParse(crc, st)
    ensures IsOneParse(crc, Step(crc, st, Arrive(chunk)))
  {
    hide Parse, Residue;
    ParseInParts(crc, st.received, chunk, 0);
    ParseInParts(crc, st.ring, chunk, st.Base());
  }

  lemma ProcessKeepsParse(crc: Crc, st: Rx)
    requires |st.ring| <= |st.received| && IsOneParse(crc, st)
    ensures IsOneParse(crc, Step(crc, st, Process))
  {
    hide Parse, Residue;
    ShortStream(crc, Residue(st.ring), |st.received| - |Residue(st.ring)|);
  }

  /** While nothing is overwritten, what was and will be delivered is the parse of the whole stream. */
  lemma {:induction false} RunIsOneParse(crc: Crc, events: seq<Event>)
    requires NeverOverwrites(crc, events)
    ensures Run(crc, events).received == Bytes(events)
    ensures IsOneParse(crc, Run(crc, events))
  {
    hide Parse, Residue, IsOneParse;
    if |events| == 0 {
      EmptyIsOneParse(crc);
    } else {
      var before := Run(crc, events[..|events| - 1]);
      RunIsOneParse(crc, events[..|events| - 1]);
      RingFits(crc, events[..|events| - 1]);
      match events[|events| - 1]
      case Arrive(chunk) => ArrivalKeepsParse(crc, before, chunk);
      case Process => ProcessKeepsParse(crc, before);
    }
  }

  lemma EmptyIsOneParse(crc: Crc)
    ensures IsOneParse(crc, EMPTY)
  {
    ShortStream(crc, [], 0);
  }

  /** A processing run leaves at most 18 bytes, so 1006 more always fit. */
  lemma {:induction false} PacedNeverOverwrites(crc: Crc, events: seq<Event>)
    requires Paced(events, 1006)
    ensures NeverOverwrites(crc, events)
    ensures |Run(crc, events).ring| <= FRAME_SIZE - 1 + Pending(events)
  {
    hide Parse, Residue;
    if |events| > 0 {
      PacedNeverOverwrites(crc, events[..|events| - 1]);
    }
  }

  lemma PacedRunIsOneParse(crc: Crc, events: seq<Event>)
    requires Paced(events, 1006)
    ensures Run(crc, events).received == Bytes(events)
    ensures IsOneParse(crc, Run(crc, events))
  {
    hide *;
    PacedNeverOverwrites(crc, events);
    RunIsOneParse(crc, events);
  }

  /** Two runs without overwriting that receive the same bytes and end with a processing run deliver the same frames. */
  lemma ChunkingDoesNotMatter(crc: Crc, events: seq<Event>, events': seq<Event>)
    requires NeverOverwrites(crc, events) && NeverOverwrites(crc, events')
    requires Bytes(events) == Bytes(events')
    requires |events| > 0 && events[|events| - 1].Process? && |events'| > 0 && events'[|events'| - 1].Process?
    ensures Run(crc, events).delivered == Run(crc, events').delivered == Parse(crc, Bytes(events), 0)
    ensures Run(crc, events).ring == Run(crc, events').ring == Residue(Bytes(events))
  {
    ProcessedRun(crc, events);
    ProcessedRun(crc, events');
  }

  lemma ProcessedRun(crc: Crc, events: seq<Event>)
    requires NeverOverwrites(crc, events) && |events| > 0 && events[|events| - 1].Process?
    ensures Run(crc, events).delivered == Parse(crc, Bytes(events), 0)
    ensures Run(crc, events).ring == Residue(Bytes(events))
  {
    hide Parse, Residue, Inv;
    var st := Run(crc, events);
    RunIsOneParse(crc, events);
    RingFits(crc, events);
    ShortStream(crc, st.ring, st.Base());
  }

  /**
   * From encoder to delivery: frames in the device's layout, sent with the receive magic and arriving in any chunks
   * that do not overflow the ring, are delivered with the same messages in the same order, and the ring is empty.
   */
  lemma EncodedFramesArrive(crc: Crc, cans: seq<CanData>, wire: seq<Window>, events: seq<Event>)
    requires |cans| == |wire|
    requires forall i :: 0 <= i < |wire| ==> Encodes(crc, MAGIC_NUMBER_RECV_DATA_FROM_CAN_BUS, cans[i], wire[i])
    requires NeverOverwrites(crc, events) && |events| > 0 && events[|events| - 1].Process?
    requires Bytes(events) == Concat(wire)
    ensures var st := Run(crc, events);
            && st.ring == [] && |st.delivered| == |cans|
            && forall i :: 0 <= i < |cans| ==> SameMessage(cans[i], st.delivered[i].frame)
  {
    hide Encodes, SameMessage, Parse, Residue, NeverOverwrites, Run, Bytes;
    ProcessedRun(crc, events);
    EncodeThenParse(crc, cans, wire, 0);
  }

  /** In particular when at most 1006 bytes arrive between two processing runs. */
  lemma PacedFramesArrive(crc: Crc, cans: seq<CanData>, wire: seq<Window>, events: seq<Event>)
    requires |cans| == |wire|
    requires forall i :: 0 <= i < |wire| ==> Encodes(crc, MAGIC_NUMBER_RECV_DATA_FROM_CAN_BUS, cans[i], wire[i])
    requires Paced(events, 1006) && |events| > 0 && events[|events| - 1].Process?
    requires Bytes(events) == Concat(wire)
    ensures var st := Run(crc, events);
            && st.ring == [] && |st.delivered| == |cans|
            && forall i :: 0 <= i < |cans| ==> SameMessage(cans[i], st.delivered[i].frame)
  {
    hide Encodes, SameMessage, Run, Bytes;
    PacedNeverOverwrites(crc, events);
    EncodedFramesArrive(crc, cans, wire, events);
  }

  /** One byte more between two runs is too many: then some valid frame of the stream is lost. */
  lemma PacingBoundIsTight(crc: Crc, f: Window, t: seq<U8>)
    requires Received(f) && Intact(crc, f) && |t| == 1006
    ensures var events := [Arrive(f[..FRAME_SIZE - 1]), Process, Arrive(f[FRAME_SIZE - 1..] + t), Process];
            && Paced(events, 1007)
            && Delivery(0, FrameOf(f)) in Parse(crc, Bytes(events), 0)
            && Delivery(0, FrameOf(f)) !in Run(crc, events).delivered
  {
    hide Received, Intact, FrameOf, Parse, Residue;
    var head, tail := f[..FRAME_SIZE - 1], f[FRAME_SIZE - 1..] + t;
    var e1, e2, e3 := [Arrive(head)], [Arrive(head), Process], [Arrive(head), Process, Arrive(tail)];
    var events := [Arrive(head), Process, Arrive(tail), Process];
    assert events[..3] == e3 && e3[..2] == e2 && e2[..1] == e1 && e1[..0] == [];
    ShortStream(crc, head, 0);
    assert Run(crc, e1) == Rx(head, head, []);
    assert Run(crc, e2) == Rx(head, head, []);
    var st := Run(crc, e3);
    assert st.Base() == 1 && st.delivered == [];
    if Delivery(0, FrameOf(f)) in Run(crc, events).delivered {
      DeliveredFromBase(crc, st.ring, 1, Delivery(0, FrameOf(f)));
    }
    assert Bytes(e1) == head && Bytes(e2) == head && Bytes(e3) == head + tail;
    assert Bytes(events) == f + t;
    assert Pending(e1) == |head| && Pending(e2) == 0 && Pending(e3) == |tail| && Pending(events) == 0;
    assert Paced(e1, |tail|) && Paced(e2, |tail|) && Paced(e3, |tail|);
    FrameAtHead(crc, f, t, 0);
  }
}
