/** CommonTypes.h: the packed header fields, set in place. Bit operations are written as arithmetic on the 16-bit
    and 8-bit words that hold the fields. */
module Headers {
  import opened Words

  class S3TPHeader {
    /** Global sequence in the high byte, sub-sequence in the low byte. */
    var sequence: Word
    /** Message type in the two highest bits, payload length below. */
    var pduLength: Word
    /** More-fragments bit above the seven bits of the port. */
    var port: Byte

    /** Fields hold whatever the memory held. */
    constructor (sequence: Word, pduLength: Word, port: Byte)
      ensures this.sequence == sequence && this.pduLength == pduLength && this.port == port
    {
      this.sequence, this.pduLength, this.port := sequence, pduLength, port;
    }

    function MoreFragments(): bool
      reads this
    {
      port / 128 == 1
    }

    function GetPort(): Port
      reads this
    {
      port % 128
    }

    function GetGlobalSequence(): Byte
      reads this
    {
      sequence / 256
    }

    function GetSubSequence(): Byte
      reads this
    {
      sequence % 256
    }

    function GetPduLength(): Word
      reads this
    {
      pduLength % 0x4000
    }

    function GetMessageType(): Byte
      reads this
    {
      pduLength / 0x4000
    }

    method SetMoreFragments()
      modifies `port
      ensures MoreFragments() && GetPort() == old(GetPort())
    {
      port := port % 128 + 128;
    }

    method UnsetMoreFragments()
      modifies `port
      ensures !MoreFragments() && GetPort() == old(GetPort())
    {
      port := port % 128;
    }

    /** The bit is kept for a port below 128; a larger value sets it. */
    method SetPort(value: Byte)
      modifies `port
      ensures GetPort() == value % 128 && (MoreFragments() <==> old(MoreFragments()) || value >= 128)
    {
      var fragFlag := port / 128;
      port := if value >= 128 then value else fragFlag * 128 + value;
    }

    method SetGlobalSequence(globalSeq: Byte)
      modifies `sequence
      ensures GetGlobalSequence() == globalSeq && GetSubSequence() == old(GetSubSequence())
    {
      sequence := globalSeq * 256 + sequence % 256;
    }

    method SetSubSequence(subSeq: Byte)
      modifies `sequence
      ensures GetSubSequence() == subSeq && GetGlobalSequence() == old(GetGlobalSequence())
    {
      sequence := sequence / 256 * 256 + subSeq;
    }

    /** Keeps bit 14 only: the mask is 0x4000 where the type takes the two bits 0xC000. The rest of the word comes
        from the argument, so the lower bit of an old type survives and a length beyond 14 bits sets the type. */
    method SetPduLength(pduLen: Word)
      modifies `pduLength
      ensures GetPduLength() == pduLen % 0x4000
      ensures var high := pduLen / 0x4000;
        GetMessageType() == if old(GetMessageType()) % 2 == 1 && high % 2 == 0 then high + 1 else high
    {
      pduLength := if pduLength / 0x4000 % 2 == 1 && pduLen / 0x4000 % 2 == 0 then pduLen + 0x4000 else pduLen;
    }

    method SetMessageType(kind: Byte)
      modifies `pduLength
      ensures GetMessageType() == kind % 4 && GetPduLength() == old(GetPduLength())
    {
      pduLength := kind % 4 * 0x4000 + pduLength % 0x4000;
    }

    /** The order in which a data packet's fields are set: constructor, `fragmentPayload`, `enqueuePacket`, and
        the global sequence on emission. Whatever the memory held, every getter returns what was set. */
    method FillData(pduLen: Word, p: Port, kind: Byte, subSeq: Byte, more: bool, globalSeq: Byte)
      modifies this
      ensures GetPduLength() == pduLen % 0x4000 && GetMessageType() == kind % 4 && GetPort() == p
      ensures MoreFragments() == more && GetSubSequence() == subSeq && GetGlobalSequence() == globalSeq
      ensures sequence == 256 * globalSeq + subSeq && pduLength == 0x4000 * (kind % 4) + pduLen % 0x4000
      ensures port == p + if more then 128 else 0
    {
      SetPduLength(pduLen);
      SetPort(p);
      SetMessageType(kind);
      SetSubSequence(subSeq);
      if more {
        SetMoreFragments();
      } else {
        UnsetMoreFragments();
      }
      SetGlobalSequence(globalSeq);
    }
  }
}
