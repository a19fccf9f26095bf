/** The 19-byte UART frame and the meaning of the receiving parser. */
module UartFrame {
  import opened CWord
  import opened Endian

  const FRAME_SIZE := 19
  const MAGIC_NUMBER_SEND_DATA_TO_CAN_BUS: U32 := 0xAABBCCDD
  const MAGIC_NUMBER_RECV_DATA_FROM_CAN_BUS: U32 := 0xAABBCCDE

  /** crc16_modbus is not part of this model: every result holds for any checksum function. */
  type Crc = seq<U8> -> U16

  /** The arguments of a call to AddToRxQueue. */
  datatype Frame = Frame(id: U32, len: U8, data: seq<U8>)

  /** A frame together with the stream position of its first byte. */
  datatype Delivery = Delivery(pos: nat, frame: Frame)

  /** The parser copies the first 19 bytes of the ring into this window before looking at them. */
  type Window = s: seq<U8> | |s| == FRAME_SIZE witness seq(FRAME_SIZE, _ => 0)

  predicate Received(w: Window)
  {
    LE(w[..4]) == MAGIC_NUMBER_RECV_DATA_FROM_CAN_BUS
  }

  predicate Intact(crc: Crc, w: Window)
  {
    crc(w[..17]) == LE(w[17..])
  }

  function FrameOf(w: Window): Frame
  {
    WordBound(w[4..8]);
    Frame(LE(w[4..8]), w[8], w[9..17])
  }

  lemma WordBound(s: seq<U8>)
    requires |s| == 4
    ensures LE(s) < 0x1_0000_0000
  {
    LEBound(s);
    Pow2OfBytes();
  }

  /** The frames delivered from a stream whose first byte has position `base`. */
  function Parse(crc: Crc, s: seq<U8>, base: nat): seq<Delivery>
    decreases |s|
  {
    if |s| < FRAME_SIZE then []
    else if Received(s[..FRAME_SIZE]) then
      Deliver(crc, s[..FRAME_SIZE], base) + Parse(crc, s[FRAME_SIZE..], base + FRAME_SIZE)
    else Parse(crc, s[1..], base + 1)
  }

  function Deliver(crc: Crc, w: Window, pos: nat): seq<Delivery>
  {
    if Intact(crc, w) then [Delivery(pos, FrameOf(w))] else []
  }

  /** The bytes the parser leaves for later. */
  function Residue(s: seq<U8>): (r: seq<U8>)
    ensures |r| < FRAME_SIZE && |r| <= |s|
    decreases |s|
  {
    if |s| < FRAME_SIZE then s
    else if Received(s[..FRAME_SIZE]) then Residue(s[FRAME_SIZE..])
    else Residue(s[1..])
  }

  /** Bytes consumed by one turn of the loop, and the deliveries it makes. */
  function Consumed(s: seq<U8>): nat
    requires |s| >= FRAME_SIZE
  {
    if Received(s[..FRAME_SIZE]) then FRAME_SIZE else 1
  }

  function Delivered(crc: Crc, s: seq<U8>, base: nat): seq<Delivery>
    requires |s| >= FRAME_SIZE
  {
    if Received(s[..FRAME_SIZE]) then Deliver(crc, s[..FRAME_SIZE], base) else []
  }

  lemma OneTurn(crc: Crc, s: seq<U8>, base: nat)
    requires |s| >= FRAME_SIZE
    ensures 1 <= Consumed(s) <= |s|
    ensures Parse(crc, s, base) == Delivered(crc, s, base) + Parse(crc, s[Consumed(s)..], base + Consumed(s))
    ensures Residue(s) == Residue(s[Consumed(s)..])
  {
    hide Received, Deliver;
  }

  lemma {:induction false} ResidueIsSuffix(s: seq<U8>)
    ensures Residue(s) == s[|s| - |Residue(s)|..]
    decreases |s|
  {
    hide Received;
    if |s| >= FRAME_SIZE {
      ResidueIsSuffix(s[FRAME_SIZE..]);
      ResidueIsSuffix(s[1..]);
    }
  }

  /** Parsing in two parts, the residue of the first carried over, is parsing the whole. */
  lemma {:induction false} ParseInParts(crc: Crc, s: seq<U8>, t: seq<U8>, base: nat)
    ensures Parse(crc, s + t, base)
         == Parse(crc, s, base) + Parse(crc, Residue(s) + t, base + |s| - |Residue(s)|)
    ensures Residue(s + t) == Residue(Residue(s) + t)
    decreases |s|
  {
    hide *;
    if |s| < FRAME_SIZE {
      ShortStream(crc, s, base);
    } else {
      TurnExtends(crc, s, t, base);
      var c := Consumed(s);
      var rest := s[c..];
      OneTurn(crc, s, base);
      OneTurn(crc, s + t, base);
      ParseInParts(crc, rest, t, base + c);
    }
  }

  lemma ShortStream(crc: Crc, s: seq<U8>, base: nat)
    requires |s| < FRAME_SIZE
    ensures Parse(crc, s, base) == [] && Residue(s) == s
  {
  }

  lemma TurnExtends(crc: Crc, s: seq<U8>, t: seq<U8>, base: nat)
    requires |s| >= FRAME_SIZE
    ensures Consumed(s + t) == Consumed(s) <= |s| && Delivered(crc, s + t, base) == Delivered(crc, s, base)
    ensures (s + t)[Consumed(s)..] == s[Consumed(s)..] + t
  {
    assert (s + t)[..FRAME_SIZE] == s[..FRAME_SIZE];
  }

  /** A delivery is a window of the stream with the receive magic and a matching checksum. */
  ghost predicate Genuine(crc: Crc, stream: seq<U8>, d: Delivery)
  {
    && d.pos + FRAME_SIZE <= |stream|
    && var w := stream[d.pos..d.pos + FRAME_SIZE];
       Received(w) && Intact(crc, w) && d.frame == FrameOf(w)
  }

  /** Genuine deliveries at increasing, non-overlapping positions between `from` and `to`. */
  ghost predicate WellDelivered(crc: Crc, stream: seq<U8>, ds: seq<Delivery>, from: nat, to: nat)
  {
    && (forall i :: 0 <= i < |ds| ==> Genuine(crc, stream, ds[i]) && from <= ds[i].pos && ds[i].pos + FRAME_SIZE <= to)
    && (forall i, j :: 0 <= i < j < |ds| ==> ds[i].pos + FRAME_SIZE <= ds[j].pos)
  }

  lemma {:induction false} ParseWellDelivered(crc: Crc, stream: seq<U8>, base: nat, upto: nat)
    requires base <= upto <= |stream|
    ensures var s := stream[base..upto];
            WellDelivered(crc, stream, Parse(crc, s, base), base, upto - |Residue(s)|)
    decreases upto - base
  {
    hide *;
    var s := stream[base..upto];
    if |s| < FRAME_SIZE {
      ShortStream(crc, s, base);
      NothingDelivered(crc, stream, base, upto - |s|);
    } else {
      TurnIsGenuine(crc, stream, base, upto);
      var c := Consumed(s);
      OneTurn(crc, s, base);
      assert s[c..] == stream[base + c..upto];
      ParseWellDelivered(crc, stream, base + c, upto);
      WellDeliveredInParts(crc, stream, Delivered(crc, s, base), Parse(crc, s[c..], base + c),
                           base, base + c, upto - |Residue(s)|);
    }
  }

  lemma NothingDelivered(crc: Crc, stream: seq<U8>, from: nat, to: nat)
    ensures WellDelivered(crc, stream, [], from, to)
  {
  }

  lemma WellDeliveredInParts(crc: Crc, stream: seq<U8>, ds: seq<Delivery>, es: seq<Delivery>,
                             from: nat, mid: nat, to: nat)
    requires from <= mid <= to && WellDelivered(crc, stream, ds, from, mid) && WellDelivered(crc, stream, es, mid, to)
    ensures WellDelivered(crc, stream, ds + es, from, to)
  {
    hide Genuine;
  }

  lemma TurnIsGenuine(crc: Crc, stream: seq<U8>, base: nat, upto: nat)
    requires base + FRAME_SIZE <= upto <= |stream|
    ensures var s := stream[base..upto];
            WellDelivered(crc, stream, Delivered(crc, s, base), base, base + Consumed(s))
  {
    assert stream[base..upto][..FRAME_SIZE] == stream[base..base + FRAME_SIZE];
  }

  /** Bytes the parser consumes at the head of g, whatever frame follows. */
  function Width(g: seq<U8>): nat
  {
    if |g| >= 4 && LE(g[..4]) == MAGIC_NUMBER_RECV_DATA_FROM_CAN_BUS then FRAME_SIZE else 1
  }

  /** The parser comes to stand exactly at the end of g: no window begun inside g reaches beyond it. */
  predicate Lands(g: seq<U8>)
    decreases |g|
  {
    |g| == 0 || (Width(g) <= |g| && Lands(g[Width(g)..]))
  }

  /** The four bytes of the magic number in stream order, all different. */
  lemma MagicBytes(s: seq<U8>)
    requires |s| >= 4
    ensures LE(s[..4]) == MAGIC_NUMBER_RECV_DATA_FROM_CAN_BUS <==>
            s[0] == 0xDE && s[1] == 0xCC && s[2] == 0xBB && s[3] == 0xAA
  {
    var m := s[..4];
    assert LE(m) == m[0] + 256 * LE(m[1..]);
    assert LE(m[1..]) == m[1] + 256 * LE(m[1..][1..]);
    assert m[1..][1..] == m[2..] && m[2..][1..] == m[3..] && m[3..][1..] == [];
    assert LE(m[2..]) == m[2] + 256 * LE(m[3..]);
    assert LE(m[3..]) == m[3] + 256 * LE([]);
  }

  const MAGIC_BYTES: seq<U8> := [0xDE, 0xCC, 0xBB, 0xAA]

  /** No magic number straddles the boundary between fewer than four bytes and a frame. */
  lemma NoStraddle(g: seq<U8>, f: Window)
    requires 0 < |g| < 4 && Received(f)
    ensures !Received((g + f)[..FRAME_SIZE])
  {
    var w := (g + f)[..FRAME_SIZE];
    MagicBytes(f);
    MagicBytes(w);
    assert w[|g|] == f[0];
  }

  /** A turn taken inside g, when a frame f and more bytes t follow. */
  lemma TurnInGarbage(g: seq<U8>, f: Window, t: seq<U8>)
    requires |g| > 0 && Received(f)
    ensures Consumed(g + f + t) == Width(g)
  {
    hide LE;
    var s := g + f + t;
    if |g| >= 4 {
      assert s[..FRAME_SIZE][..4] == g[..4];
    } else {
      NoStraddle(g, f);
      assert s[..FRAME_SIZE] == (g + f)[..FRAME_SIZE];
    }
  }

  /** No delivery lies before the parsed bytes. */
  lemma {:induction false} DeliveredFromBase(crc: Crc, s: seq<U8>, base: nat, d: Delivery)
    requires d in Parse(crc, s, base)
    ensures d.pos >= base
    decreases |s|
  {
    hide Received, Deliver, Delivered, Parse;
    if |s| < FRAME_SIZE {
      ShortStream(crc, s, base);
    } else {
      OneTurn(crc, s, base);
      DeliveredAtBase(crc, s, base);
      if d !in Delivered(crc, s, base) {
        DeliveredFromBase(crc, s[Consumed(s)..], base + Consumed(s), d);
      }
    }
  }

  lemma DeliveredAtBase(crc: Crc, s: seq<U8>, base: nat)
    requires |s| >= FRAME_SIZE
    ensures forall d :: d in Delivered(crc, s, base) ==> d.pos == base
  {
    hide Received, Intact, FrameOf;
  }

  /**
   * Resynchronisation. A valid frame that follows arbitrary bytes g is delivered from its own position exactly
   * when the parser lands on the end of g; this is decided by g alone.
   */
  lemma {:induction false} DeliveredExactlyWhenLanding(crc: Crc, g: seq<U8>, f: Window, t: seq<U8>, base: nat)
    requires Received(f) && Intact(crc, f)
    ensures Lands(g) <==> exists d :: d in Parse(crc, g + f + t, base) && d.pos == base + |g|
    ensures Lands(g) ==> Delivery(base + |g|, FrameOf(f)) in Parse(crc, g + f + t, base)
    decreases |g|
  {
    hide Received, Intact, FrameOf, Deliver, Delivered, Parse, Consumed, Width;
    var s := g + f + t;
    OneTurn(crc, s, base);
    if |g| == 0 {
      FrameAtHead(crc, f, t, base);
      assert s == f + t;
    } else {
      TurnInGarbage(g, f, t);
      DeliveredAtBase(crc, s, base);
      var c := Consumed(s);
      if c <= |g| {
        assert s[c..] == g[c..] + f + t;
        DeliveredExactlyWhenLanding(crc, g[c..], f, t, base + c);
      } else {
        forall d | d in Parse(crc, s[c..], base + c)
          ensures d.pos > base + |g|
        {
          DeliveredFromBase(crc, s[c..], base + c, d);
        }
      }
    }
  }

  /** Four bytes of garbage that swallow the frame behind them, whatever it is and whatever follows. */
  lemma SwallowingGarbage(crc: Crc, f: Window, t: seq<U8>, base: nat)
    requires Received(f) && Intact(crc, f)
    ensures forall d :: d in Parse(crc, MAGIC_BYTES + f + t, base) ==> d.pos != base + 4
  {
    hide Parse, Received, Intact, LE;
    MagicBytes(MAGIC_BYTES);
    assert !Lands(MAGIC_BYTES);
    DeliveredExactlyWhenLanding(crc, MAGIC_BYTES, f, t, base);
  }

  lemma FrameAtHead(crc: Crc, f: Window, t: seq<U8>, base: nat)
    requires Received(f) && Intact(crc, f)
    ensures Parse(crc, f + t, base) == [Delivery(base, FrameOf(f))] + Parse(crc, t, base + FRAME_SIZE)
    ensures Residue(f + t) == Residue(t)
  {
    assert (f + t)[..FRAME_SIZE] == f;
    assert (f + t)[FRAME_SIZE..] == t;
  }

  predicate MagicAt(g: seq<U8>, i: nat)
    requires i + 4 <= |g|
  {
    LE(g[i..i + 4]) == MAGIC_NUMBER_RECV_DATA_FROM_CAN_BUS
  }

  ghost predicate NoMagic(g: seq<U8>)
  {
    forall i :: 0 <= i <= |g| - 4 ==> !MagicAt(g, i)
  }

  /** Garbage without a magic number is skipped byte by byte and the frame behind it is delivered. */
  lemma {:induction false} SkipsGarbage(crc: Crc, g: seq<U8>, f: Window, t: seq<U8>, base: nat)
    requires NoMagic(g) && Received(f) && Intact(crc, f)
    ensures Parse(crc, g + f + t, base)
         == [Delivery(base + |g|, FrameOf(f))] + Parse(crc, t, base + |g| + FRAME_SIZE)
    ensures Residue(g + f + t) == Residue(t)
    ensures Lands(g)
    decreases |g|
  {
    hide Received, Intact, FrameOf, Deliver, Parse, Residue, LE;
    var s := g + f + t;
    if |g| == 0 {
      FrameAtHead(crc, f, t, base);
      assert s == f + t;
    } else {
      OneTurn(crc, s, base);
      TurnInGarbage(g, f, t);
      assert |g| >= 4 ==> !MagicAt(g, 0);
      assert s[1..] == g[1..] + f + t;
      assert forall i :: 0 <= i <= |g[1..]| - 4 ==> MagicAt(g[1..], i) == MagicAt(g, i + 1) by {
        forall i | 0 <= i <= |g| - 5
          ensures MagicAt(g[1..], i) == MagicAt(g, i + 1)
        {
          assert g[1..][i..i + 4] == g[i + 1..i + 5];
        }
      }
      SkipsGarbage(crc, g[1..], f, t, base + 1);
    }
  }

  datatype Item = Item(garbage: seq<U8>, frame: Window)

  function Stream(items: seq<Item>): seq<U8>
  {
    if |items| == 0 then [] else items[0].garbage + items[0].frame + Stream(items[1..])
  }

  function Deliveries(items: seq<Item>, base: nat): (ds: seq<Delivery>)
    ensures |ds| == |items|
  {
    if |items| == 0 then [] else
      var p := base + |items[0].garbage|;
      [Delivery(p, FrameOf(items[0].frame))] + Deliveries(items[1..], p + FRAME_SIZE)
  }

  /** Any number of valid frames, each behind its own garbage: all delivered, in order, and nothing is left over. */
  lemma {:induction false} AllFramesDelivered(crc: Crc, items: seq<Item>, base: nat)
    requires forall i :: 0 <= i < |items| ==>
               NoMagic(items[i].garbage) && Received(items[i].frame) && Intact(crc, items[i].frame)
    ensures Parse(crc, Stream(items), base) == Deliveries(items, base)
    ensures Residue(Stream(items)) == []
    decreases |items|
  {
    hide Received, Intact, FrameOf, NoMagic;
    if |items| > 0 {
      var g, f, rest := items[0].garbage, items[0].frame, items[1..];
      hide Parse, Residue;
      SkipsGarbage(crc, g, f, Stream(rest), base);
      AllFramesDelivered(crc, rest, base + |g| + FRAME_SIZE);
    }
  }

  /** One entry of the transmit queue. */
  datatype CanData = CanData(frameId: U32, dataLen: U8, data: seq<U8>)

  /** What PrepareSendDataFormat guarantees of its 19 bytes; payload bytes from data_len on may hold anything. */
  ghost predicate Encodes(crc: Crc, magic: U32, can: CanData, out: Window)
  {
    && can.dataLen <= 8 && |can.data| == 8
    && LE(out[..4]) == magic
    && LE(out[4..8]) == can.frameId
    && out[8] == can.dataLen
    && out[9..9 + can.dataLen] == can.data[..can.dataLen]
    && LE(out[17..]) == crc(out[..17])
  }

  ghost predicate SameMessage(can: CanData, frame: Frame)
  {
    && |can.data| == 8 && |frame.data| == 8 && can.dataLen <= 8
    && frame.id == can.frameId && frame.len == can.dataLen
    && frame.data[..frame.len] == can.data[..can.dataLen]
  }

  function Concat(wire: seq<Window>): seq<U8>
  {
    if |wire| == 0 then [] else wire[0] + Concat(wire[1..])
  }

  /** Frames in the device's layout, sent with the receive magic, all come back with the same message. */
  lemma {:induction false} EncodeThenParse(crc: Crc, cans: seq<CanData>, wire: seq<Window>, base: nat)
    requires |cans| == |wire|
    requires forall i :: 0 <= i < |wire| ==> Encodes(crc, MAGIC_NUMBER_RECV_DATA_FROM_CAN_BUS, cans[i], wire[i])
    ensures var ds := Parse(crc, Concat(wire), base);
            |ds| == |cans| && forall i :: 0 <= i < |cans| ==> SameMessage(cans[i], ds[i].frame)
    ensures Residue(Concat(wire)) == []
    decreases |wire|
  {
    hide Parse, Residue, Received, Intact, FrameOf, Encodes, SameMessage;
    if |wire| == 0 {
      ShortStream(crc, [], base);
    } else {
      EncodedWindow(crc, cans[0], wire[0]);
      FrameAtHead(crc, wire[0], Concat(wire[1..]), base);
      EncodeThenParse(crc, cans[1..], wire[1..], base + FRAME_SIZE);
    }
  }

  lemma EncodedWindow(crc: Crc, can: CanData, w: Window)
    requires Encodes(crc, MAGIC_NUMBER_RECV_DATA_FROM_CAN_BUS, can, w)
    ensures Received(w) && Intact(crc, w) && SameMessage(can, FrameOf(w))
  {
    hide LE;
    assert w[9..17][..can.dataLen] == w[9..9 + can.dataLen];
  }
}
