/** USB HID framing of an encoded Trezor message: the buffer produced by the
    message encoder is cut into 64-byte link packets, each a length byte
    followed by 63 bytes of payload. This module holds the specification of
    that framing as pure functions, and what is proved about it. */
module HidFraming {

  /** A Java `byte`: signed, eight bits. */
  newtype byte = b: int | -128 <= b < 128

  /** Every HID report is 64 bytes long: 63 bytes of payload (the literal
      63 below, kept literal so that offsets 63 * i stay linear arithmetic) ... */
  const PacketLength: nat := 64
  /** ... after byte 0, which always holds the payload length 63, whatever the packet holds. */
  const LengthHeader: byte := 63

  /** What the encoder hands back: the bytes of the buffer up to its limit,
      and the position just after the last byte it wrote. */
  datatype HidBuffer = HidBuffer(bytes: seq<byte>, position: nat)

  /** A buffer whose position lies within its bytes, as in every ByteBuffer. */
  type EncodedBuffer = b: HidBuffer | b.position <= |b.bytes| witness HidBuffer([], 0)

  /** The number of packets sent for a buffer whose position is `position`:
      only whole 63-byte payloads are counted (integer division). */
  function PacketCount(position: nat): (n: nat)
    ensures 63 * n <= position < 63 * n + 63
    ensures n == 0 <==> position < 63
  {
    position / 63
  }

  /** Packet `i` of `data`: the length byte, then the i-th 63-byte slice of the data. */
  function Packet(data: seq<byte>, i: nat): (p: seq<byte>)
    requires 63 * i + 63 <= |data|
    ensures |p| == PacketLength && p[0] == LengthHeader
    ensures p[1..] == data[63 * i .. 63 * i + 63]
  {
    [LengthHeader] + data[63 * i .. 63 * i + 63]
  }

  /** The first `n` packets of `data`, in the order they are emitted. */
  function Packets(data: seq<byte>, n: nat): (ps: seq<seq<byte>>)
    requires 63 * n <= |data|
    ensures |ps| == n
  {
    if n == 0 then [] else Packets(data, n - 1) + [Packet(data, n - 1)]
  }

  /** The packets an encoded buffer is framed into. */
  function Frame(b: EncodedBuffer): (ps: seq<seq<byte>>)
    ensures |ps| == PacketCount(b.position)
  {
    Packets(b.bytes, PacketCount(b.position))
  }

  /** Every element is a 64-byte packet whose first byte is the length header. */
  ghost predicate WellFormed(ps: seq<seq<byte>>)
  {
    forall k :: 0 <= k < |ps| ==> |ps[k]| == PacketLength && ps[k][0] == LengthHeader
  }

  /** The payloads of a sequence of packets (each without its header byte), concatenated. */
  function Payloads(ps: seq<seq<byte>>): seq<byte>
    requires forall k :: 0 <= k < |ps| ==> |ps[k]| > 0
  {
    if ps == [] then [] else Payloads(ps[..|ps| - 1]) + ps[|ps| - 1][1..]
  }

  /** The k-th packet emitted is packet k of the data. */
  lemma {:induction false} PacketsAt(data: seq<byte>, n: nat, k: nat)
    requires 63 * n <= |data| && k < n
    ensures Packets(data, n)[k] == Packet(data, k)
  {
    if k < n - 1 {
      PacketsAt(data, n - 1, k);
    }
  }

  /** The first `n` packets are all well formed. */
  lemma PacketsWellFormed(data: seq<byte>, n: nat)
    requires 63 * n <= |data|
    ensures WellFormed(Packets(data, n))
  {
    forall k | 0 <= k < n
      ensures |Packets(data, n)[k]| == PacketLength && Packets(data, n)[k][0] == LengthHeader
    {
      PacketsAt(data, n, k);
    }
  }

  /** Concatenating the payloads of the first `n` packets gives back the first `63 * n` bytes. */
  lemma {:induction false} PayloadsOfPackets(data: seq<byte>, n: nat)
    requires 63 * n <= |data|
    ensures WellFormed(Packets(data, n))
    ensures Payloads(Packets(data, n)) == data[..63 * n]
  {
    PacketsWellFormed(data, n);
    if n == 0 {
      assert Packets(data, n) == [];
    } else {
      var ps := Packets(data, n);
      var last := Packet(data, n - 1);
      var m := 63 * (n - 1);
      assert ps == Packets(data, n - 1) + [last];
      assert ps[..n - 1] == Packets(data, n - 1);
      PayloadsOfPackets(data, n - 1);
      assert Payloads(ps) == Payloads(Packets(data, n - 1)) + last[1..];
      assert data[..m + 63] == data[..m] + data[m .. m + 63];
    }
  }

  /** Every packet of the frame is 64 bytes, starts with 63, and carries the
      i-th 63-byte slice of the buffer; the count is position / 63. */
  lemma FrameShape(b: EncodedBuffer)
    ensures |Frame(b)| == b.position / 63
    ensures WellFormed(Frame(b))
    ensures forall i :: 0 <= i < |Frame(b)| ==>
      63 * i + 63 <= b.position &&
      Frame(b)[i][1..] == b.bytes[63 * i .. 63 * i + 63]
  {
    var n := PacketCount(b.position);
    PacketsWellFormed(b.bytes, n);
    forall i | 0 <= i < n
      ensures Frame(b)[i][1..] == b.bytes[63 * i .. 63 * i + 63]
    {
      PacketsAt(b.bytes, n, i);
    }
  }

  /** The payloads, in order, are exactly the first 63 * (position / 63)
      bytes of the buffer; what is left before the position, position mod 63
      bytes, is dropped. */
  lemma FrameReassembles(b: EncodedBuffer)
    ensures WellFormed(Frame(b))
    ensures Payloads(Frame(b)) == b.bytes[..63 * (b.position / 63)]
    ensures var sent := 63 * PacketCount(b.position);
      |b.bytes[sent..b.position]| == b.position % 63 &&
      Payloads(Frame(b)) + b.bytes[sent..b.position] == b.bytes[..b.position]
  {
    var sent := 63 * PacketCount(b.position);
    PayloadsOfPackets(b.bytes, PacketCount(b.position));
    assert b.bytes[..b.position] == b.bytes[..sent] + b.bytes[sent..b.position];
  }

  /** The frame depends only on the position and on the bytes before the
      last whole payload: the trailing position mod 63 bytes, and whatever
      lies at or beyond the position, never reach a packet. */
  lemma FrameIgnoresTail(b: EncodedBuffer, b': EncodedBuffer)
    requires b.position == b'.position
    requires var sent := 63 * PacketCount(b.position);
      b.bytes[..sent] == b'.bytes[..sent]
    ensures Frame(b) == Frame(b')
  {
    var n := PacketCount(b.position);
    var sent := 63 * n;
    forall k | 0 <= k < n
      ensures Frame(b)[k] == Frame(b')[k]
    {
      var lo := 63 * k;
      PacketsAt(b.bytes, n, k);
      PacketsAt(b'.bytes, n, k);
      assert b.bytes[lo .. lo + 63] == b.bytes[..sent][lo .. lo + 63];
      assert b'.bytes[lo .. lo + 63] == b'.bytes[..sent][lo .. lo + 63];
    }
  }

  /** A buffer whose position is below 63 yields no packet at all, and only such a buffer. */
  lemma ShortBufferSendsNothing(b: EncodedBuffer)
    ensures Frame(b) == [] <==> b.position < 63
  {
  }
}
