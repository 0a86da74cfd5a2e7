/**
 * The GTPv1 echo record as it travels on the wire: `struct GtpEcho` of gtping.c,
 * a packed 12-byte header (3GPP TS 29.060, section 6) whose multi-byte fields
 * are big-endian. The Echo Request (section 7.2.1) has message type 1 and the
 * Echo Response (section 7.2.2) message type 2.
 */
module GtpWire {

  type Byte = b: int | 0 <= b < 0x100
  type Uint16 = x: int | 0 <= x < 0x1_0000
  type Uint32 = x: int | 0 <= x < 0x1_0000_0000

  /** `x++` on an `unsigned int`: wraps from 2^32 - 1 to 0. */
  function Inc32(x: Uint32): (r: Uint32)
    ensures x < 0xFFFF_FFFF ==> r == x + 1
    ensures x == 0xFFFF_FFFF ==> r == 0
  {
    (x + 1) % 0x1_0000_0000
  }

  /** Counting n events with a 32-bit counter leaves n mod 2^32 in it. */
  lemma Inc32OfCount(n: nat)
    ensures Inc32(n % 0x1_0000_0000) == (n + 1) % 0x1_0000_0000
  {
    var q, r := n / 0x1_0000_0000, n % 0x1_0000_0000;
    assert n == q * 0x1_0000_0000 + r;
    if r + 1 == 0x1_0000_0000 {
      assert n + 1 == (q + 1) * 0x1_0000_0000;
    } else {
      assert n + 1 == q * 0x1_0000_0000 + (r + 1);
    }
  }

  /** sizeof(struct GtpEcho) under `#pragma pack(1)`: 1 + 1 + 2 + 4 + 2 + 1 + 1. */
  const HeaderSize: nat := 12

  /** Version 1, protocol type GTP, sequence-number flag set. */
  const EchoFlags: Byte := 0x32
  const EchoRequestType: Byte := 0x01
  const EchoReplyType: Byte := 0x02
  /** Bytes after the mandatory 8: sequence number, N-PDU number, next extension type. */
  const EchoPayloadLength: Uint16 := 4

  /** The fields of `struct GtpEcho`, in wire order, as host values. */
  datatype GtpEcho = GtpEcho(
    flags: Byte,
    msg: Byte,
    len: Uint16,
    teid: Uint32,
    sequence: Uint16,
    npdu: Byte,
    next: Byte)

  /** Reads two bytes as a big-endian 16-bit value (`ntohs`). */
  function ReadBigEndian16(b: seq<Byte>): (x: Uint16)
    requires |b| == 2
    ensures x / 0x100 == b[0] && x % 0x100 == b[1]
  {
    (b[0] as int) * 0x100 + b[1] as int
  }

  /** Writes a 16-bit value as two big-endian bytes (`htons`). */
  function BigEndian16(x: Uint16): (b: seq<Byte>)
    ensures |b| == 2 && ReadBigEndian16(b) == x
  {
    [x / 0x100, x % 0x100]
  }

  function ReadBigEndian32(b: seq<Byte>): (x: Uint32)
    requires |b| == 4
    ensures x / 0x1_0000 == ReadBigEndian16(b[..2]) && x % 0x1_0000 == ReadBigEndian16(b[2..])
  {
    ReadBigEndian16(b[..2]) * 0x1_0000 + ReadBigEndian16(b[2..])
  }

  function BigEndian32(x: Uint32): (b: seq<Byte>)
    ensures |b| == 4 && ReadBigEndian32(b) == x
  {
    var b := BigEndian16(x / 0x1_0000) + BigEndian16(x % 0x1_0000);
    assert b[..2] == BigEndian16(x / 0x1_0000) && b[2..] == BigEndian16(x % 0x1_0000);
    b
  }

  /** The 12 bytes a `struct GtpEcho` occupies in memory and on the wire. */
  function Encode(h: GtpEcho): (b: seq<Byte>)
    ensures |b| == HeaderSize
  {
    [h.flags, h.msg] + BigEndian16(h.len) + BigEndian32(h.teid) + BigEndian16(h.sequence) + [h.npdu, h.next]
  }

  /** Reads a 12-byte buffer as a `struct GtpEcho`. */
  function Decode(b: seq<Byte>): (h: GtpEcho)
    requires |b| == HeaderSize
    ensures h.msg == b[1]
    ensures h.sequence == (b[8] as int) * 0x100 + b[9] as int
  {
    GtpEcho(b[0], b[1], ReadBigEndian16(b[2..4]), ReadBigEndian32(b[4..8]),
            ReadBigEndian16(b[8..10]), b[10], b[11])
  }

  lemma DecodeEncode(h: GtpEcho)
    ensures Decode(Encode(h)) == h
  {
    var b := Encode(h);
    assert b[2..4] == BigEndian16(h.len);
    assert b[4..8] == BigEndian32(h.teid);
    assert b[8..10] == BigEndian16(h.sequence);
  }

  lemma EncodeDecode(b: seq<Byte>)
    requires |b| == HeaderSize
    ensures Encode(Decode(b)) == b
  {
    var h := Decode(b);
    BigEndianOfRead16(b[2..4]);
    BigEndianOfRead16(b[8..10]);
    BigEndianOfRead32(b[4..8]);
    assert b == [b[0], b[1]] + b[2..4] + b[4..8] + b[8..10] + [b[10], b[11]];
  }

  lemma BigEndianOfRead16(b: seq<Byte>)
    requires |b| == 2
    ensures BigEndian16(ReadBigEndian16(b)) == b
  {
  }

  lemma BigEndianOfRead32(b: seq<Byte>)
    requires |b| == 4
    ensures BigEndian32(ReadBigEndian32(b)) == b
  {
    var x := ReadBigEndian32(b);
    BigEndianOfRead16(b[..2]);
    BigEndianOfRead16(b[2..]);
    assert b == b[..2] + b[2..];
  }

  /**
   * The Echo Request that `sendEcho(fd, seq)` transmits: flags 0x32, type 1,
   * length 4, TEID 0, the sequence number truncated to 16 bits by `htons`,
   * and two zero bytes.
   */
  function EchoRequest(sequence: Uint32): (b: seq<Byte>)
    ensures |b| == HeaderSize
  {
    Encode(GtpEcho(EchoFlags, EchoRequestType, EchoPayloadLength, 0, sequence % 0x1_0000, 0, 0))
  }

  /** The two bytes `htons` makes of the low 16 bits are `x >> 8` and `x & 0xff`, both taken mod 256. */
  lemma Low16Bytes(x: nat)
    ensures (x % 0x1_0000) / 0x100 == (x / 0x100) % 0x100
    ensures (x % 0x1_0000) % 0x100 == x % 0x100
  {
    var q, low := x / 0x1_0000, x % 0x1_0000;
    assert x == q * 0x1_0000 + low;
    assert x / 0x100 == q * 0x100 + low / 0x100;
    assert x == (q * 0x100 + low / 0x100) * 0x100 + low % 0x100;
  }

  /** The request byte by byte. */
  lemma EchoRequestBytes(sequence: Uint32)
    ensures EchoRequest(sequence)
         == [0x32, 0x01, 0x00, 0x04, 0x00, 0x00, 0x00, 0x00, (sequence / 0x100) % 0x100, sequence % 0x100, 0x00, 0x00]
  {
    Low16Bytes(sequence);
    assert BigEndian32(0) == [0, 0, 0, 0];
  }

  /** The sequence field of a request reads back as the sequence number modulo 2^16. */
  lemma RequestCarriesSeq(sequence: Uint32)
    ensures ReadBigEndian16(EchoRequest(sequence)[8..10]) == sequence % 0x1_0000
    ensures Decode(EchoRequest(sequence)) == GtpEcho(EchoFlags, EchoRequestType, EchoPayloadLength, 0, sequence % 0x1_0000, 0, 0)
  {
    DecodeEncode(GtpEcho(EchoFlags, EchoRequestType, EchoPayloadLength, 0, sequence % 0x1_0000, 0, 0));
  }

  /**
   * What `recvEchoReply` holds after `recv` into a zero-filled `struct GtpEcho`:
   * the first 12 bytes of the datagram (a longer UDP datagram is truncated),
   * and zero for every byte the datagram did not reach.
   */
  function ReceiveBuffer(datagram: seq<Byte>): (buf: seq<Byte>)
    ensures |buf| == HeaderSize
    ensures forall i :: 0 <= i < HeaderSize ==> buf[i] == if i < |datagram| then datagram[i] else 0
  {
    if |datagram| >= HeaderSize then datagram[..HeaderSize]
    else
      var zeros: seq<Byte> := seq(HeaderSize - |datagram|, _ => 0);
      datagram + zeros
  }

  /** Every encoded record passes through the receive buffer unchanged. */
  lemma ReceiveEncoded(h: GtpEcho)
    ensures Decode(ReceiveBuffer(Encode(h))) == h
  {
    var b := Encode(h);
    assert ReceiveBuffer(b) == b;
    DecodeEncode(h);
  }
}
