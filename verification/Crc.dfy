/** `calc_checksum` of utilities.cpp: a bit-serial CRC-16 over the payload bits, least significant
    bit of each byte first, generator x^16 + x^15 + x^2 + 1, result reflected.
    A `uint16_t` is the list of its sixteen bits, most significant first. */
module Crc {
  import opened Words

  type Word16 = w: seq<bool> | |w| == 16 witness Zeros(16)

  /** 0x8005 */
  const CRC16: Word16 :=
    [true, false, false, false, false, false, false, false, false, false, false, false, false, true, false, true]

  function Zeros(n: nat): (z: seq<bool>)
    ensures |z| == n
  {
    seq(n, i => false)
  }

  /** Bitwise exclusive or. */
  function Xor(a: seq<bool>, b: seq<bool>): (c: seq<bool>)
    requires |a| == |b|
    ensures |c| == |a| && forall i :: 0 <= i < |a| ==> c[i] == (a[i] != b[i])
  {
    seq(|a|, i requires 0 <= i < |a| => a[i] != b[i])
  }

  /** One turn of the shift register: shift `bit` in, subtract the generator if a one fell out. */
  function Step(out: Word16, bit: bool): Word16 {
    var shifted := out[1..] + [bit];
    if out[0] then Xor(shifted, CRC16) else shifted
  }

  /** The register after shifting in all of `bits`, first element first. */
  function Feed(out: Word16, bits: seq<bool>): Word16 {
    if bits == [] then out else Step(Feed(out, bits[..|bits| - 1]), bits[|bits| - 1])
  }

  /** Bit `k` of a byte, counted from the least significant one. */
  function BitOf(b: Byte, k: nat): bool
    requires k < 8
  {
    (b / [1, 2, 4, 8, 16, 32, 64, 128][k]) % 2 == 1
  }

  /** The bits of a payload in transmission order. */
  function Bits(data: seq<Byte>): seq<bool> {
    seq(8 * |data|, i requires 0 <= i < 8 * |data| => BitOf(data[i / 8], i % 8))
  }

  /** Bit reversal of a 16-bit word. */
  function Reflect(v: Word16): Word16 {
    seq(16, i requires 0 <= i < 16 => v[15 - i])
  }

  /** The checksum of a bit string: register, flush with sixteen zeros, reflection. */
  function BitChecksum(bits: seq<bool>): Word16 {
    Reflect(Feed(Feed(Zeros(16), bits), Zeros(16)))
  }

  function Checksum(data: seq<Byte>): Word16 {
    BitChecksum(Bits(data))
  }

  /** `calc_checksum` as written: the bit loop, the sixteen flush turns, the reversal. */
  method CalcChecksum(data: seq<Byte>) returns (crc: Word16)
    requires |data| < 0x10000
    ensures crc == Checksum(data)
  {
    var out := ReadBits(data);
    out := PushOut(out);
    crc := ReverseBits(out);
  }

  /** Shifts one bit in and subtracts the generator if bit 15 was set. */
  method Shift(register: Word16, bit: bool) returns (out: Word16)
    ensures out == Step(register, bit)
  {
    var bitFlag := register[0];
    out := register[1..] + [bit];
    if bitFlag {
      out := Xor(out, CRC16);
    }
  }

  method ReadBits(data: seq<Byte>) returns (out: Word16)
    ensures out == Feed(Zeros(16), Bits(data))
  {
    out := Zeros(16);
    var bitsRead, pos, size := 0, 0, |data|;
    ghost var done := 0;
    NothingRead(data);
    AllRead(data);
    while size > 0
      invariant 0 <= bitsRead < 8 && pos + size == |data|
      invariant done == 8 * pos + bitsRead <= 8 * |data|
      invariant out == Read(data, done)
      decreases 8 * |data| - done
    {
      var bit := BitOf(data[pos], bitsRead);
      ReadNext(data, pos, bitsRead, done);
      out := Shift(out, bit);
      bitsRead, done := bitsRead + 1, done + 1;
      if bitsRead > 7 {
        bitsRead, pos, size := 0, pos + 1, size - 1;
      }
    }
  }

  /** The register after the first `n` payload bits. */
  ghost function Read(data: seq<Byte>, n: nat): Word16
    requires n <= 8 * |data|
  {
    Feed(Zeros(16), Bits(data)[..n])
  }

  lemma NothingRead(data: seq<Byte>)
    ensures Read(data, 0) == Zeros(16)
  {
  }

  lemma AllRead(data: seq<Byte>)
    ensures Read(data, 8 * |data|) == Feed(Zeros(16), Bits(data))
  {
    assert Bits(data)[..8 * |data|] == Bits(data);
  }

  lemma ReadNext(data: seq<Byte>, pos: nat, k: nat, n: nat)
    requires pos < |data| && k < 8 && n == 8 * pos + k
    ensures Read(data, n + 1) == Step(Read(data, n), BitOf(data[pos], k))
  {
    BitsAt(data, pos, k);
    FeedNext(Zeros(16), Bits(data), n);
  }

  /** Item b) of the source: push out the last sixteen bits. */
  method PushOut(read: Word16) returns (out: Word16)
    ensures out == Feed(read, Zeros(16))
  {
    out := read;
    for i := 0 to 16
      invariant out == Feed(read, Zeros(16)[..i])
    {
      FeedNext(read, Zeros(16), i);
      out := Shift(out, false);
    }
    assert Zeros(16)[..16] == Zeros(16);
  }

  /** Item c) of the source: bit 15 of `out` goes to bit 0, bit 14 to bit 1, and so on. */
  method ReverseBits(out: Word16) returns (crc: Word16)
    ensures crc == Reflect(out)
  {
    crc := Zeros(16);
    for i := 0 to 16
      invariant forall k :: 0 <= k < 16 ==> crc[k] == (k >= 16 - i && out[15 - k])
    {
      if out[i] {
        crc := crc[15 - i := true];
      }
    }
  }

  lemma FeedNext(out: Word16, bits: seq<bool>, k: nat)
    requires k < |bits|
    ensures Feed(out, bits[..k + 1]) == Step(Feed(out, bits[..k]), bits[k])
  {
    assert bits[..k + 1][..k] == bits[..k];
  }

  lemma BitsAt(data: seq<Byte>, pos: nat, k: nat)
    requires pos < |data| && k < 8
    ensures Bits(data)[8 * pos + k] == BitOf(data[pos], k)
  {
    var q, r := (8 * pos + k) / 8, (8 * pos + k) % 8;
    assert 8 * pos + k == 8 * q + r;
    assert q == pos && r == k;
  }

  /** `verify_checksum`. */
  method VerifyChecksum(data: seq<Byte>, checksum: Word16) returns (ok: bool)
    requires |data| < 0x10000
    ensures ok == (checksum == Checksum(data))
  {
    var crc := CalcChecksum(data);
    ok := checksum == crc;
  }
}
