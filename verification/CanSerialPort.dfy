/** The serial port object with its ring and queue, and the STM32 device that works on them. */
module CanSerial {
  import opened CWord
  import opened Endian
  import opened UartFrame
  import RxPath
  import TxPath

  const CAN_SERIAL_TX_BUFFER_SIZE := 64

  /** The CanData constructor: the copy is clamped, the stored length is not. */
  function MakeCanData(frameId: U32, dataLen: U8, data: seq<U8>): CanData
    requires |data| >= dataLen || |data| >= 8
  {
    var n := if dataLen > 8 then 8 else dataLen;
    CanData(frameId, dataLen, data[..n] + seq(8 - n, _ => 0))
  }

  /** The entry carries what the caller passed: its payload begins with the data, at most 8 bytes, and ends in zeros. */
  ghost predicate Holds(entry: CanData, frameId: U32, dataLen: U8, data: seq<U8>)
    requires |data| >= dataLen || |data| >= 8
  {
    && entry.frameId == frameId && entry.dataLen == dataLen && |entry.data| == 8
    && forall i :: 0 <= i < 8 ==> entry.data[i] == if i < dataLen then data[i] else 0
  }

  lemma EntryHolds(frameId: U32, dataLen: U8, data: seq<U8>)
    requires |data| >= dataLen || |data| >= 8
    ensures Holds(MakeCanData(frameId, dataLen, data), frameId, dataLen, data)
  {
  }

  class CanSerialPort {
    var circBuff: seq<U8>
    var txQueue: seq<CanData>
    var isNotificationPending: bool
    const crc: Crc

    // The states of the two transition systems, and the bytes of every frame written to the port.
    ghost var rx: RxPath.Rx
    ghost var tx: TxPath.Tx
    ghost var wire: seq<Window>

    ghost predicate Valid()
      reads this
    {
      && rx.ring == circBuff && RxPath.Inv(crc, rx)
      && tx.queue == txQueue && tx.sender == TxPath.AtLoopHead && TxPath.Inv(tx)
      && (forall d :: d in txQueue ==> |d.data| == 8)
      && |wire| == |tx.wire|
      && forall k :: 0 <= k < |wire| ==> Encodes(crc, MAGIC_NUMBER_SEND_DATA_TO_CAN_BUS, tx.wire[k], wire[k])
    }

    constructor (crc: Crc)
      ensures Valid() && this.crc == crc
      ensures rx == RxPath.EMPTY && tx == TxPath.INITIAL && wire == []
    {
      hide RxPath.Inv, TxPath.Inv;
      RxPath.EmptyInv(crc);
      TxPath.InitialInv();
      this.crc := crc;
      circBuff := [];
      txQueue := [];
      isNotificationPending := false;
      rx := RxPath.EMPTY;
      tx := TxPath.INITIAL;
      wire := [];
    }

    method OnDataReceived(data: seq<U8>)
      requires Valid()
      modifies this
      ensures Valid() && isNotificationPending
      ensures rx == RxPath.Step(crc, old(rx), RxPath.Arrive(data))
      ensures tx == old(tx) && wire == old(wire)
    {
      hide RxPath.Inv, TxPath.Inv, Encodes;
      RxPath.StepKeepsInv(crc, rx, RxPath.Arrive(data));
      circBuff := RxPath.Appended(circBuff, data);
      rx := RxPath.Step(crc, rx, RxPath.Arrive(data));
      isNotificationPending := true;
    }

    method AddToTxQueue(frameId: U32, dataLen: U8, hasData: bool, data: seq<U8>)
      requires Valid()
      requires hasData ==> |data| >= dataLen || |data| >= 8
      modifies this
      ensures Valid()
      ensures hasData && dataLen > 0 ==>
                tx == TxPath.Step(old(tx), TxPath.Add(MakeCanData(frameId, dataLen, data))) && isNotificationPending
      ensures hasData && dataLen > 0 ==> |txQueue| > 0 && Holds(txQueue[|txQueue| - 1], frameId, dataLen, data)
      ensures hasData && dataLen > 0 ==>
                txQueue[..|txQueue| - 1] == if |old(txQueue)| == 100 then old(txQueue)[1..] else old(txQueue)
      ensures !hasData || dataLen == 0 ==> tx == old(tx) && isNotificationPending == old(isNotificationPending)
      ensures rx == old(rx) && wire == old(wire)
    {
      hide RxPath.Inv, TxPath.Inv, Encodes;
      if !hasData || dataLen == 0 {
        return;
      }
      var frame := MakeCanData(frameId, dataLen, data);
      EntryHolds(frameId, dataLen, data);
      hide MakeCanData;
      TxPath.StepKeepsInv(tx, TxPath.Add(frame));
      tx := TxPath.Step(tx, TxPath.Add(frame));
      txQueue := txQueue + [frame];
      if |txQueue| > TxPath.TX_QUEUE_MAX_SIZE {
        txQueue := txQueue[1..];
      }
      isNotificationPending := true;
    }

    /** The drain loop without interference from AddToTxQueue; the interleavings are in TxPath. */
    method SendPendingCanFrames(device: CanDeviceStm32)
      requires Valid() && device.port == this
      requires forall d :: d in txQueue ==> Sendable(d)
      modifies this
      ensures Valid() && txQueue == []
      ensures tx.wire == old(tx.wire) + old(txQueue)
      ensures tx.accepted == old(tx.accepted) && tx.dropped == old(tx.dropped) && tx.skipped == old(tx.skipped)
      ensures rx == old(rx) && isNotificationPending == old(isNotificationPending)
    {
      hide RxPath.Inv, TxPath.Inv, Encodes;
      while |txQueue| > 0
        invariant Valid() && forall d :: d in txQueue ==> Sendable(d)
        invariant tx.wire + txQueue == old(tx.wire) + old(txQueue)
        invariant tx.accepted == old(tx.accepted) && tx.dropped == old(tx.dropped) && tx.skipped == old(tx.skipped)
        invariant rx == old(rx) && isNotificationPending == old(isNotificationPending)
        decreases |txQueue|
      {
        var front := txQueue[0];
        var buffer := new U8[CAN_SERIAL_TX_BUFFER_SIZE];
        var size, remove := device.PrepareSendDataFormat(front, buffer);
        TxPath.TurnSendsFront(tx);
        if size > 0 {
          wire := wire + [buffer[..size]];
        }
        tx := TxPath.Turn(tx);
        if remove {
          txQueue := txQueue[1..];
        }
      }
    }
  }

  /** The payload fits the eight bytes of a frame. */
  predicate Sendable(d: CanData)
  {
    d.dataLen <= 8 && |d.data| == 8
  }

  class CanDeviceStm32 {
    const port: CanSerialPort

    constructor (port: CanSerialPort)
      ensures this.port == port
    {
      this.port := port;
    }

    method ProcessReceivedFrames()
      requires port.Valid()
      modifies port`circBuff, port`rx
      ensures port.Valid()
      ensures port.rx == RxPath.Step(port.crc, old(port.rx), RxPath.Process)
    {
      hide RxPath.Inv, TxPath.Inv, Encodes, Parse, Residue, Received, Intact, FrameOf;
      ghost var start := port.rx;
      ghost var pos: nat, delivered: seq<Delivery> := start.Base(), start.delivered;
      while |port.circBuff| >= FRAME_SIZE
        invariant delivered + Parse(port.crc, port.circBuff, pos)
               == start.delivered + Parse(port.crc, start.ring, start.Base())
        invariant Residue(port.circBuff) == Residue(start.ring)
        decreases |port.circBuff|
      {
        var again := true;
        while again
          invariant again ==> |port.circBuff| >= FRAME_SIZE
          invariant delivered + Parse(port.crc, port.circBuff, pos)
                 == start.delivered + Parse(port.crc, start.ring, start.Base())
          invariant Residue(port.circBuff) == Residue(start.ring)
          invariant !again ==> |port.circBuff| < FRAME_SIZE
          decreases again, |port.circBuff|
        {
          var uartData: Window := port.circBuff[..FRAME_SIZE];
          OneTurn(port.crc, port.circBuff, pos);
          if Received(uartData) {
            if Intact(port.crc, uartData) {
              // AddToRxQueue
              delivered := delivered + [Delivery(pos, FrameOf(uartData))];
            }
            port.circBuff := port.circBuff[FRAME_SIZE..];
            pos := pos + FRAME_SIZE;
          } else {
            port.circBuff := port.circBuff[1..];
            pos := pos + 1;
          }
          again := |port.circBuff| >= FRAME_SIZE;
        }
      }
      ShortStream(port.crc, port.circBuff, pos);
      RxPath.StepKeepsInv(port.crc, start, RxPath.Process);
      port.rx := RxPath.Rx(port.circBuff, start.received, delivered);
      assert port.rx == RxPath.Step(port.crc, start, RxPath.Process);
    }

    method PrepareSendDataFormat(data: CanData, out: array<U8>) returns (size: nat, removeFromQueue: bool)
      requires out.Length >= FRAME_SIZE && Sendable(data)
      modifies out
      ensures size == 19 && removeFromQueue && out[..4] == [0xDD, 0xCC, 0xBB, 0xAA]
      ensures Encodes(port.crc, MAGIC_NUMBER_SEND_DATA_TO_CAN_BUS, data, out[..FRAME_SIZE])
      ensures forall i :: 9 + data.dataLen <= i < 17 || FRAME_SIZE <= i < out.Length ==> out[i] == old(out[i])
    {
      hide LE, Bytes;
      SendMagic();
      var magic, id := Bytes(MAGIC_NUMBER_SEND_DATA_TO_CAN_BUS, 4), Bytes(data.frameId, 4);
      out[0], out[1], out[2], out[3] := magic[0], magic[1], magic[2], magic[3];
      out[4], out[5], out[6], out[7] := id[0], id[1], id[2], id[3];
      out[8] := data.dataLen;
      forall i | 0 <= i < data.dataLen {
        out[9 + i] := data.data[i];
      }
      var crc := Bytes(port.crc(out[..17]), 2);
      ghost var covered := out[..17];
      out[17], out[18] := crc[0], crc[1];
      ghost var w := out[..FRAME_SIZE];
      assert w[..17] == covered;
      HeaderValues(MAGIC_NUMBER_SEND_DATA_TO_CAN_BUS, data.frameId, port.crc(covered));
      HeadFields(w, magic, id);
      PayloadField(w, data);
      CrcField(w, crc);
      return FRAME_SIZE, true;
    }
  }

  lemma SendMagic()
    ensures Bytes(MAGIC_NUMBER_SEND_DATA_TO_CAN_BUS, 4) == [0xDD, 0xCC, 0xBB, 0xAA]
  {
    var s: seq<U8> := [0xDD, 0xCC, 0xBB, 0xAA];
    assert s[1..] == [0xCC, 0xBB, 0xAA] && s[1..][1..] == [0xBB, 0xAA] && s[1..][1..][1..] == [0xAA];
    assert LE([0xAA]) == 0xAA && LE([0xBB, 0xAA]) == 0xAABB && LE([0xCC, 0xBB, 0xAA]) == 0xAABBCC;
    assert LE(s) == MAGIC_NUMBER_SEND_DATA_TO_CAN_BUS;
    hide LE, Bytes;
    BytesOfLE(s);
  }

  /**
   * From the caller to the wire: a frame added to an empty queue and sent goes out in one window of 19 bytes that
   * carries the caller's id, length and data between the magic number and the checksum.
   */
  method SendOne(port: CanSerialPort, device: CanDeviceStm32, frameId: U32, dataLen: U8, data: seq<U8>)
    requires port.Valid() && device.port == port && port.txQueue == []
    requires 0 < dataLen <= 8 && dataLen <= |data|
    modifies port
    ensures port.Valid() && |port.wire| == |old(port.wire)| + 1
    ensures var w := port.wire[|port.wire| - 1];
            && LE(w[..4]) == 0xAABBCCDD && LE(w[4..8]) == frameId && w[8] == dataLen
            && w[9..9 + dataLen] == data[..dataLen] && LE(w[17..]) == port.crc(w[..17])
  {
    hide RxPath.Inv, TxPath.Inv;
    port.AddToTxQueue(frameId, dataLen, true, data);
    ghost var entry := port.txQueue[0];
    port.SendPendingCanFrames(device);
    assert port.tx.wire[|port.wire| - 1] == entry;
    assert entry.data[..dataLen] == data[..dataLen];
  }

  /** The bytes stored one by one, read as the fields of a frame. */
  lemma HeadFields(w: Window, magic: seq<U8>, id: seq<U8>)
    requires |magic| == |id| == 4
    requires w[0] == magic[0] && w[1] == magic[1] && w[2] == magic[2] && w[3] == magic[3]
    requires w[4] == id[0] && w[5] == id[1] && w[6] == id[2] && w[7] == id[3]
    ensures w[..4] == magic && w[4..8] == id
  {
  }

  lemma PayloadField(w: Window, data: CanData)
    requires Sendable(data) && forall i :: 0 <= i < data.dataLen ==> w[9 + i] == data.data[i]
    ensures w[9..9 + data.dataLen] == data.data[..data.dataLen]
  {
  }

  lemma CrcField(w: Window, crc: seq<U8>)
    requires |crc| == 2 && w[17] == crc[0] && w[18] == crc[1]
    ensures w[17..] == crc
  {
  }

  lemma HeaderValues(magic: U32, id: U32, crc: U16)
    ensures LE(Bytes(magic, 4)) == magic && LE(Bytes(id, 4)) == id && LE(Bytes(crc, 2)) == crc
  {
    Pow2OfBytes();
    hide LE, Bytes;
    LEOfBytes(magic, 4);
    LEOfBytes(id, 4);
    LEOfBytes(crc, 2);
  }
}
