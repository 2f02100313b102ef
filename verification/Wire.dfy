/** The packet format shared by streamsender and streamreceiver (streamnet_protocol.h). */
module Wire {
  import opened Words

  const MAGIC: uint32 := 0x53544D43
  const MAX_PAYLOAD: uint16 := 1400
  const FLAG_KEYFRAME: uint32 := 1
  const HEADER_BYTES := 32
  const MAX_PACKET_BYTES := HEADER_BYTES + MAX_PAYLOAD

  datatype Option<+T> = None | Some(value: T)

  datatype PacketHeader = PacketHeader(
    magic: uint32,
    frameId: uint32,
    frameSize: uint32,
    packetIdx: uint16,
    totalPackets: uint16,
    width: uint32,
    height: uint32,
    flags: uint32,
    reserved: uint32)

  datatype Packet = Packet(header: PacketHeader, payload: seq<byte>)

  predicate HasKeyframeFlag(flags: uint32) { flags % 2 == 1 }

  // Byte i of a little-endian word.
  function Le(x: nat, i: nat): byte
    requires i < 4
  {
    if i == 0 then x % 0x100
    else if i == 1 then x / 0x100 % 0x100
    else if i == 2 then x / 0x1_0000 % 0x100
    else x / 0x100_0000 % 0x100
  }

  function Read16(b: seq<byte>, at: nat): uint16
    requires at + 2 <= |b|
  {
    var lo: int, hi: int := b[at], b[at + 1];
    lo + 0x100 * hi
  }

  function Read32(b: seq<byte>, at: nat): uint32
    requires at + 4 <= |b|
  {
    var b0: int, b1: int, b2: int, b3: int := b[at], b[at + 1], b[at + 2], b[at + 3];
    b0 + 0x100 * b1 + 0x1_0000 * b2 + 0x100_0000 * b3
  }

  /** Byte k of the header as it lies in memory: packed, little-endian, no padding. */
  function HeaderByte(h: PacketHeader, k: nat): byte
    requires k < HEADER_BYTES
  {
    if k < 4 then Le(h.magic, k)
    else if k < 8 then Le(h.frameId, k - 4)
    else if k < 12 then Le(h.frameSize, k - 8)
    else if k < 14 then Le(h.packetIdx, k - 12)
    else if k < 16 then Le(h.totalPackets, k - 14)
    else if k < 20 then Le(h.width, k - 16)
    else if k < 24 then Le(h.height, k - 20)
    else if k < 28 then Le(h.flags, k - 24)
    else Le(h.reserved, k - 28)
  }

  function HeaderBytes(h: PacketHeader): (b: seq<byte>)
    ensures |b| == HEADER_BYTES
  {
    seq(HEADER_BYTES, k requires 0 <= k < HEADER_BYTES => HeaderByte(h, k))
  }

  function ReadHeader(b: seq<byte>): PacketHeader
    requires HEADER_BYTES <= |b|
  {
    PacketHeader(Read32(b, 0), Read32(b, 4), Read32(b, 8), Read16(b, 12), Read16(b, 14),
                 Read32(b, 16), Read32(b, 20), Read32(b, 24), Read32(b, 28))
  }

  /** What the sender hands to `sendto`. */
  function Serialize(p: Packet): seq<byte> { HeaderBytes(p.header) + p.payload }

  /**
   * What the receiver makes of one `recvfrom`. A datagram longer than the receive buffer is reported
   * as a socket error, a short one or one with another magic is skipped.
   */
  function Parse(data: seq<byte>): Option<Packet> {
    if |data| > MAX_PACKET_BYTES || |data| < HEADER_BYTES then None
    else if ReadHeader(data).magic != MAGIC then None
    else Some(Packet(ReadHeader(data), data[HEADER_BYTES..]))
  }

  lemma {:induction false} WordOfBytes(x: uint32)
    ensures Le(x, 0) + 0x100 * Le(x, 1) + 0x1_0000 * Le(x, 2) + 0x100_0000 * Le(x, 3) == x
  {
    assert x / 0x1_0000 == x / 0x100 / 0x100 && x / 0x100_0000 == x / 0x100 / 0x100 / 0x100;
  }

  lemma {:induction false} BytesOfWord(b0: byte, b1: byte, b2: byte, b3: byte)
    ensures var x := b0 + 0x100 * b1 + 0x1_0000 * b2 + 0x100_0000 * b3;
            Le(x, 0) == b0 && Le(x, 1) == b1 && Le(x, 2) == b2 && Le(x, 3) == b3
  {
    var x := b0 + 0x100 * b1 + 0x1_0000 * b2 + 0x100_0000 * b3;
    assert x / 0x100 == b1 + 0x100 * b2 + 0x1_0000 * b3;
    assert x / 0x1_0000 == b2 + 0x100 * b3;
  }

  lemma {:induction false} ReadBack32(b: seq<byte>, at: nat, x: uint32)
    requires at + 4 <= |b| && forall i :: 0 <= i < 4 ==> b[at + i] == Le(x, i)
    ensures Read32(b, at) == x
  {
    assert b[at + 0] == Le(x, 0) && b[at + 1] == Le(x, 1) && b[at + 2] == Le(x, 2) && b[at + 3] == Le(x, 3);
    WordOfBytes(x);
  }

  lemma {:induction false} ReadBack16(b: seq<byte>, at: nat, x: uint16)
    requires at + 2 <= |b| && b[at] == Le(x, 0) && b[at + 1] == Le(x, 1)
    ensures Read16(b, at) == x
  {
  }

  lemma {:induction false} HeaderRoundTrip(h: PacketHeader, payload: seq<byte>)
    ensures ReadHeader(HeaderBytes(h) + payload) == h
  {
    var b := HeaderBytes(h) + payload;
    ReadBack32(b, 0, h.magic);
    ReadBack32(b, 4, h.frameId);
    ReadBack32(b, 8, h.frameSize);
    ReadBack16(b, 12, h.packetIdx);
    ReadBack16(b, 14, h.totalPackets);
    ReadBack32(b, 16, h.width);
    ReadBack32(b, 20, h.height);
    ReadBack32(b, 24, h.flags);
    ReadBack32(b, 28, h.reserved);
  }

  /** Where each field lies in a datagram: little-endian, at fixed offsets, the payload from byte 32 on. */
  lemma {:induction false} DatagramLayout(p: Packet)
    ensures var b: seq<int>, h := Serialize(p), p.header;
            && |b| == 32 + |p.payload| && b[32..] == p.payload
            && b[0] + 0x100 * b[1] + 0x1_0000 * b[2] + 0x100_0000 * b[3] == h.magic
            && b[4] + 0x100 * b[5] + 0x1_0000 * b[6] + 0x100_0000 * b[7] == h.frameId
            && b[8] + 0x100 * b[9] + 0x1_0000 * b[10] + 0x100_0000 * b[11] == h.frameSize
            && b[12] + 0x100 * b[13] == h.packetIdx
            && b[14] + 0x100 * b[15] == h.totalPackets
            && b[16] + 0x100 * b[17] + 0x1_0000 * b[18] + 0x100_0000 * b[19] == h.width
            && b[20] + 0x100 * b[21] + 0x1_0000 * b[22] + 0x100_0000 * b[23] == h.height
            && b[24] + 0x100 * b[25] + 0x1_0000 * b[26] + 0x100_0000 * b[27] == h.flags
            && b[28] + 0x100 * b[29] + 0x1_0000 * b[30] + 0x100_0000 * b[31] == h.reserved
  {
    HeaderRoundTrip(p.header, p.payload);
    assert ReadHeader(Serialize(p)) == p.header;
  }

  lemma {:induction false} Bytes32(b: seq<byte>, at: nat)
    requires at + 4 <= |b|
    ensures forall i :: 0 <= i < 4 ==> Le(Read32(b, at), i) == b[at + i]
  {
    BytesOfWord(b[at], b[at + 1], b[at + 2], b[at + 3]);
  }

  lemma {:induction false} Bytes16(b: seq<byte>, at: nat)
    requires at + 2 <= |b|
    ensures forall i :: 0 <= i < 2 ==> Le(Read16(b, at), i) == b[at + i]
  {
    BytesOfWord(b[at], b[at + 1], 0, 0);
  }

  lemma {:induction false} HeaderByteIs(b: seq<byte>, k: nat)
    requires HEADER_BYTES <= |b| && k < HEADER_BYTES
    ensures HeaderByte(ReadHeader(b), k) == b[k]
  {
    var word := if k < 12 || k >= 16 then k / 4 * 4 else k / 2 * 2;
    if k < 12 || k >= 16 {
      Bytes32(b, word);
    } else {
      Bytes16(b, word);
    }
    assert b[word + (k - word)] == b[k];
  }

  /** Reading a header and writing it again gives back the same 32 bytes: no two headers share an image. */
  lemma {:induction false} HeaderImageIsExact(b: seq<byte>)
    requires HEADER_BYTES <= |b|
    ensures HeaderBytes(ReadHeader(b)) == b[..HEADER_BYTES]
  {
    forall k | 0 <= k < HEADER_BYTES ensures HeaderBytes(ReadHeader(b))[k] == b[..HEADER_BYTES][k] {
      HeaderByteIs(b, k);
    }
  }

  /**
   * A datagram is accepted exactly when some packet with the right magic serializes to it, and that packet is read
   * back.
   */
  lemma {:induction false} ParseInvertsSerialize(data: seq<byte>, p: Packet)
    ensures Parse(data) == Some(p) <==>
            data == Serialize(p) && p.header.magic == MAGIC && |p.payload| <= MAX_PAYLOAD
  {
    if data == Serialize(p) {
      HeaderRoundTrip(p.header, p.payload);
      assert data[HEADER_BYTES..] == p.payload;
    }
    if Parse(data) == Some(p) {
      HeaderImageIsExact(data);
      assert data == data[..HEADER_BYTES] + data[HEADER_BYTES..];
    }
  }

  lemma {:induction false} MagicBytes(b0: int, b1: int, b2: int, b3: int)
    requires 0 <= b0 < 0x100 && 0 <= b1 < 0x100 && 0 <= b2 < 0x100 && 0 <= b3 < 0x100
    ensures b0 + 0x100 * b1 + 0x1_0000 * b2 + 0x100_0000 * b3 == MAGIC <==>
            b0 == 0x43 && b1 == 0x4D && b2 == 0x54 && b3 == 0x53
  {
    BytesOfWord(b0, b1, b2, b3);
    assert Le(MAGIC, 0) == 0x43 && Le(MAGIC, 1) == 0x4D && Le(MAGIC, 2) == 0x54 && Le(MAGIC, 3) == 0x53;
  }

  /** The receiver looks at a datagram's length and first four bytes, and at nothing else, to accept it. */
  lemma {:induction false} AcceptedIff(data: seq<byte>)
    ensures Parse(data).Some? <==> 32 <= |data| <= 1432 && data[..4] == [0x43, 0x4D, 0x54, 0x53]
  {
    if |data| >= HEADER_BYTES {
      MagicBytes(data[0], data[1], data[2], data[3]);
      assert data[..4] == [data[0], data[1], data[2], data[3]];
    }
  }
}
