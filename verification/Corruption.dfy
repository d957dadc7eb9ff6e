/** What the checksum means for the receiver: which corrupted packets `handleReceivedPacket` turns away. */
module Corruption {
  import opened Words
  import opened Crc
  import opened Packets
  import CrcBytes
  import CrcDetection
  import CrcOrder
  import R = Receiver

  /** `e` flips an odd number of bits, or bits within sixteen places of each other, or two bits of a payload of
      at most 992 bytes. */
  ghost predicate Detectable(e: seq<bool>) {
    || CrcDetection.Odd(e)
    || (exists before: nat, burst: seq<bool>, after: nat ::
          |burst| <= 16 && true in burst && e == Burst(before, burst, after))
    || (|e| <= 8 * LEN_PDU && exists before: nat, distance: nat, after: nat ::
          distance > 0 && e == CrcOrder.TwoBits(before, distance, after))
  }

  ghost function Burst(before: nat, burst: seq<bool>, after: nat): seq<bool> {
    Zeros(before) + burst + Zeros(after)
  }

  /** `x'` is `x` with the error `e` added to its payload; the header may differ in any field but the checksum. */
  ghost predicate Corrupts(x: Packet, x': Packet, e: seq<bool>) {
    && x.crc == Checksum(x.payload) && x'.crc == x.crc
    && |x'.payload| == |x.payload| && |e| == 8 * |x.payload|
    && Bits(x'.payload) == Xor(Bits(x.payload), e)
  }

  lemma DetectableChangesChecksum(data: seq<Byte>, data': seq<Byte>, e: seq<bool>)
    requires |e| == 8 * |data| == 8 * |data'| && Bits(data') == Xor(Bits(data), e) && Detectable(e)
    ensures Checksum(data') != Checksum(data)
  {
    if CrcDetection.Odd(e) {
      CrcDetection.OddErrorDetected(data, data', e);
    } else if before: nat, burst: seq<bool>, after: nat :|
        |burst| <= 16 && true in burst && e == Burst(before, burst, after) {
      CrcDetection.BurstDetected(data, data', before, burst, after);
    } else {
      var before: nat, distance: nat, after: nat :| distance > 0 && e == CrcOrder.TwoBits(before, distance, after);
      CrcOrder.DoubleErrorInPacket(data, data', before, distance, after);
    }
  }

  /** An active receiver turns a corrupted payload away exactly when the error leaves the shift register set. */
  lemma RejectedExactly(rx: R.Rx, x: Packet, x': Packet, e: seq<bool>)
    requires rx.active && Corrupts(x, x', e) && R.WellFormed(x')
    ensures R.Handle(rx, x').1 == R.CODE_ERROR_CRC_INVALID <==> Feed(Zeros(16), e) != Zeros(16)
  {
    CrcDetection.MissedError(x.payload, x'.payload, e);
  }

  /** Every odd, bursty or double error is turned away, and leaves the receiver as it was. */
  lemma CorruptionRejected(rx: R.Rx, x: Packet, x': Packet, e: seq<bool>)
    requires rx.active && Corrupts(x, x', e) && R.WellFormed(x') && Detectable(e)
    ensures R.Handle(rx, x') == (rx, R.CODE_ERROR_CRC_INVALID)
  {
    DetectableChangesChecksum(x.payload, x'.payload, e);
  }

  /** On the payload in memory: any odd number of inverted bits, and two inverted bits of at most 992 bytes, are turned
      away. */
  lemma FlipsRejected(rx: R.Rx, x: Packet, payload: seq<Byte>, flips: seq<nat>)
    requires rx.active && x.crc == Checksum(x.payload) && R.WellFormed(x.(payload := payload))
    requires forall k :: 0 <= k < |flips| ==> flips[k] < 8 * |x.payload|
    requires payload == CrcBytes.FlipAll(x.payload, flips)
    requires |flips| % 2 == 1 || (|flips| == 2 && flips[0] < flips[1] && |x.payload| <= 992)
    ensures R.Handle(rx, x.(payload := payload)) == (rx, R.CODE_ERROR_CRC_INVALID)
  {
    if |flips| % 2 == 1 {
      CrcBytes.OddFlipsDetected(x.payload, flips);
    } else {
      CrcBytes.TwoFlips(x.payload, flips);
    }
    hide Checksum, CrcBytes.FlipAll;
  }

  /** So is any change of two neighbouring bytes. */
  lemma NeighboursRejected(rx: R.Rx, x: Packet, payload: seq<Byte>, i: nat)
    requires rx.active && x.crc == Checksum(x.payload) && R.WellFormed(x.(payload := payload))
    requires |payload| == |x.payload| && i + 2 <= |payload| && payload != x.payload
    requires forall k :: 0 <= k < |payload| && k != i && k != i + 1 ==> payload[k] == x.payload[k]
    ensures R.Handle(rx, x.(payload := payload)) == (rx, R.CODE_ERROR_CRC_INVALID)
  {
    CrcBytes.NeighboursDetected(x.payload, payload, i);
  }
}
