/** S3TP packets and the ordering policy of the two modules. */
module Packets {
  import opened Words
  import opened Crc

  const CODE_SUCCESS := 0

  const DATA := 0
  const SYNC := 3

  /** LEN_S3TP_PDU */
  const LEN_PDU := 992
  const MAX_FRAGMENTS := 128
  /** MAX_PDU_LENGTH */
  const MAX_MESSAGE := LEN_PDU * MAX_FRAGMENTS

  /** The code as written, or with its two known slips repaired: the completeness check adds in `int`
      instead of `uint8_t`, and fragmentation advances its pointer by the running total. */
  datatype Variant = AsWritten | Repaired

  /** Header fields, payload and channel of an `S3TP_PACKET`. `idx` is a history variable: the number of the
      packet among all packets ever enqueued on its port. No operation of the protocol reads it. */
  datatype Packet = Packet(
    kind: Byte,
    port: Port,
    more: bool,
    sub: Byte,
    seqPort: Byte,
    glob: Byte,
    crc: Word16,
    payload: seq<Byte>,
    channel: Byte,
    idx: nat)

  const MAX_REORDERING_WINDOW := 128

  /** `PolicyActor` as implemented by `TxModule` (offset `to_consume_port_seq`) and by `RxModule`
      (offset `current_port_sequence`). */
  datatype Policy =
    | TxPolicy(offset: map<Port, Byte>, blocked: set<Byte>)
    | RxPolicy(offset: map<Port, Byte>, globalBase: Byte)
  {
    /** Distance of a sequence number from the next one to consume on `p`. */
    function Rank(p: Port, x: Packet): Byte {
      Sub8(x.seqPort, At(offset, p))
    }

    /** `comparePriority`: negative if `a` goes first. */
    function Compare(a: Packet, b: Packet): int {
      var seq1, seq2 := Rank(a.port, a), Rank(a.port, b);
      if seq1 < seq2 then -1 else if seq1 > seq2 then 1 else 0
    }

    predicate Before(a: Packet, b: Packet) {
      Compare(a, b) < 0
    }

    predicate IsElementValid(x: Packet) {
      TxPolicy? ==> x.channel !in blocked
    }

    predicate WindowExceeded(head: Packet, x: Packet) {
      RxPolicy? && Abs(Sub8(x.glob, globalBase) - Sub8(head.glob, globalBase)) > MAX_REORDERING_WINDOW
    }
  }
}
