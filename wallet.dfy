/** The Trezor hardware wallet base: writing a message as a train of HID
    packets, reading a message, disconnecting, and the default device
    specification. The device hooks (write a packet, read a message, close
    the transport) and the monitor service's shutdown are recorded, in
    order, as calls in a trace. */
module TrezorWallet {
  import opened HidFraming
  import opened NioByteBuffer

  /** A protocol buffer message; the core never looks inside it. */
  datatype Message = Message(payload: seq<byte>)

  /** One call the wallet makes on its device or on its monitor service. */
  datatype Call =
    | DeviceWrite(packet: seq<byte>)   // writeToDevice(packet)
    | DeviceRead(reply: Message)       // readFromDevice(), with what it returned
    | DeviceClose                      // internalClose()
    | MonitorShutdown                  // hardwareWalletMonitorService.shutdownNow()

  /** The description of a hardware wallet: its identifier, name and
      description, and the host and port of its emulator socket. */
  datatype HardwareWalletSpecification = HardwareWalletSpecification(
    className: string, name: string, description: string, host: string, port: int)

  /** The description the default specification gives the device. */
  const TrezorDescription: string :=
    "The hardware Bitcoin wallet. A step in the evolution of Bitcoin towards a completely safe payment system."

  /** The calls that writing `packets` appends to a trace that already holds
      `history`: each packet is written, then a message is read, and
      `reply` says what the device answers given the trace up to that read. */
  function Exchange(history: seq<Call>, packets: seq<seq<byte>>, reply: seq<Call> -> Message): (e: seq<Call>)
    ensures |e| == 2 * |packets|
  {
    if packets == [] then []
    else
      var before := Exchange(history, packets[..|packets| - 1], reply);
      var write := DeviceWrite(packets[|packets| - 1]);
      before + [write, DeviceRead(reply(history + before + [write]))]
  }

  /** The packets written in a trace, in order. */
  function Writes(calls: seq<Call>): seq<seq<byte>>
  {
    if calls == [] then []
    else Writes(calls[..|calls| - 1]) + match calls[|calls| - 1] {
      case DeviceWrite(p) => [p]
      case _ => []
    }
  }

  /** The number of reads in a trace. */
  function ReadCount(calls: seq<Call>): nat
  {
    if calls == [] then 0
    else ReadCount(calls[..|calls| - 1]) + if calls[|calls| - 1].DeviceRead? then 1 else 0
  }

  /** Writes at the even places, reads at the odd places, and nothing else:
      every write is followed by exactly one read. */
  ghost predicate Alternating(calls: seq<Call>)
  {
    && |calls| % 2 == 0
    && forall k :: 0 <= k < |calls| ==>
         (calls[k].DeviceWrite? <==> k % 2 == 0) && (calls[k].DeviceRead? <==> k % 2 == 1)
  }

  lemma {:induction false} WritesAndReadsAppend(a: seq<Call>, b: seq<Call>)
    ensures Writes(a + b) == Writes(a) + Writes(b)
    ensures ReadCount(a + b) == ReadCount(a) + ReadCount(b)
  {
    if b == [] {
      assert a + b == a;
    } else {
      assert (a + b)[..|a + b| - 1] == a + b[..|b| - 1];
      WritesAndReadsAppend(a, b[..|b| - 1]);
    }
  }

  lemma WriteThenRead(p: seq<byte>, m: Message)
    ensures Writes([DeviceWrite(p), DeviceRead(m)]) == [p]
    ensures ReadCount([DeviceWrite(p), DeviceRead(m)]) == 1
  {
    assert [DeviceWrite(p), DeviceRead(m)][..1] == [DeviceWrite(p)];
    assert [DeviceWrite(p)][..0] == [];
    assert Writes([DeviceWrite(p)]) == [p] && ReadCount([DeviceWrite(p)]) == 0;
  }

  /** Call 2k of an exchange writes packet k; call 2k + 1 reads, and gets
      back the device's answer to everything before it. */
  lemma {:induction false} ExchangeAt(history: seq<Call>, packets: seq<seq<byte>>, reply: seq<Call> -> Message, k: nat)
    requires k < |packets|
    ensures var e := Exchange(history, packets, reply);
      e[2 * k] == DeviceWrite(packets[k]) &&
      e[2 * k + 1] == DeviceRead(reply(history + e[..2 * k + 1]))
  {
    var n := |packets|;
    var e := Exchange(history, packets, reply);
    var before := Exchange(history, packets[..n - 1], reply);
    var write := DeviceWrite(packets[n - 1]);
    assert e == before + [write, DeviceRead(reply(history + before + [write]))];
    if k < n - 1 {
      ExchangeAt(history, packets[..n - 1], reply, k);
      assert e[..2 * k + 1] == before[..2 * k + 1];
    } else {
      assert e[..2 * k + 1] == before + [write];
      assert history + e[..2 * k + 1] == history + before + [write];
    }
  }

  /** An exchange writes exactly the given packets, in the given order, and
      reads once per packet. */
  lemma {:induction false} ExchangeWrites(history: seq<Call>, packets: seq<seq<byte>>, reply: seq<Call> -> Message)
    ensures Writes(Exchange(history, packets, reply)) == packets
    ensures ReadCount(Exchange(history, packets, reply)) == |packets|
  {
    if packets != [] {
      var n := |packets|;
      var before := Exchange(history, packets[..n - 1], reply);
      var write := DeviceWrite(packets[n - 1]);
      var read := DeviceRead(reply(history + before + [write]));
      ExchangeWrites(history, packets[..n - 1], reply);
      WritesAndReadsAppend(before, [write, read]);
      WriteThenRead(packets[n - 1], read.reply);
      assert packets == packets[..n - 1] + [packets[n - 1]];
    }
  }

  /** Writing one more packet after a trace `t` that ends with the exchange
      so far appends its write, and then a read answered by the device. */
  lemma ExchangeStep(history: seq<Call>, packets: seq<seq<byte>>, p: seq<byte>, next: seq<seq<byte>>,
                     reply: seq<Call> -> Message, t: seq<Call>)
    requires next == packets + [p]
    requires t == history + Exchange(history, packets, reply)
    ensures history + Exchange(history, next, reply) ==
      t + [DeviceWrite(p)] + [DeviceRead(reply(t + [DeviceWrite(p)]))]
  {
    assert next[..|packets|] == packets;
  }

  /** One turn of the write loop: after the first i packets of `data`,
      writing packet i and reading once gives the exchange of the first i + 1. */
  lemma WriteStep(history: seq<Call>, data: seq<byte>, i: nat, p: seq<byte>, reply: seq<Call> -> Message, t: seq<Call>)
    requires 63 * i + 63 <= |data|
    requires p == [LengthHeader] + data[63 * i .. 63 * i + 63]
    requires t == history + Exchange(history, Packets(data, i), reply)
    ensures history + Exchange(history, Packets(data, i + 1), reply) ==
      t + [DeviceWrite(p)] + [DeviceRead(reply(t + [DeviceWrite(p)]))]
  {
    ExchangeStep(history, Packets(data, i), p, Packets(data, i + 1), reply, t);
  }

  /** An exchange strictly alternates a write with a read. */
  lemma ExchangeAlternates(history: seq<Call>, packets: seq<seq<byte>>, reply: seq<Call> -> Message)
    ensures Alternating(Exchange(history, packets, reply))
  {
    var e := Exchange(history, packets, reply);
    forall j | 0 <= j < |e|
      ensures (e[j].DeviceWrite? <==> j % 2 == 0) && (e[j].DeviceRead? <==> j % 2 == 1)
    {
      ExchangeAt(history, packets, reply, j / 2);
    }
  }

  /** What writing an encoded buffer amounts to: position / 63 writes, each
      a 64-byte packet headed by 63, whose payloads, in order, are the first
      63 * (position / 63) bytes of the buffer; as many reads as writes,
      alternating with them. */
  lemma WriteMessageContract(history: seq<Call>, b: EncodedBuffer, reply: seq<Call> -> Message)
    ensures var e := Exchange(history, Frame(b), reply);
      && Writes(e) == Frame(b)
      && |Writes(e)| == b.position / 63
      && WellFormed(Writes(e))
      && Payloads(Writes(e)) == b.bytes[..63 * (b.position / 63)]
      && ReadCount(e) == |Writes(e)|
      && Alternating(e)
  {
    ExchangeWrites(history, Frame(b), reply);
    ExchangeAlternates(history, Frame(b), reply);
    FrameReassembles(b);
  }

  /** The trace after a disconnect: the transport is closed, then the
      monitor service is shut down, with nothing between them. */
  function AfterDisconnect(trace: seq<Call>): (t: seq<Call>)
    ensures |t| == |trace| + 2 && t[..|trace|] == trace
    ensures t[|trace|] == DeviceClose && t[|trace| + 1] == MonitorShutdown
  {
    trace + [DeviceClose, MonitorShutdown]
  }

  /** Nothing guards a second disconnect: it closes and shuts down again. */
  lemma DisconnectTwice(trace: seq<Call>)
    ensures AfterDisconnect(AfterDisconnect(trace)) == trace + [DeviceClose, MonitorShutdown, DeviceClose, MonitorShutdown]
    ensures AfterDisconnect(AfterDisconnect(trace)) != AfterDisconnect(trace)
  {
  }

  /** A Trezor wallet over some transport. The transport's hooks and the
      message encoder are outside the core; they are given as functions:
      `formatAsHidPackets` encodes a message, `reply` is what reading the
      device returns given every call made so far, and `bytesWritten` is
      what writing a packet reports. */
  class AbstractTrezorHardwareWallet {
    /** The canonical name of the concrete wallet class. */
    const canonicalName: string
    const formatAsHidPackets: Message -> EncodedBuffer
    const reply: seq<Call> -> Message
    const bytesWritten: seq<byte> -> int
    /** Every call made on the device and the monitor service, oldest first. */
    var trace: seq<Call>

    constructor (canonicalName: string, formatAsHidPackets: Message -> EncodedBuffer,
                 reply: seq<Call> -> Message, bytesWritten: seq<byte> -> int)
      ensures this.canonicalName == canonicalName && this.formatAsHidPackets == formatAsHidPackets
      ensures this.reply == reply && this.bytesWritten == bytesWritten
      ensures trace == []
    {
      this.canonicalName := canonicalName;
      this.formatAsHidPackets := formatAsHidPackets;
      this.reply := reply;
      this.bytesWritten := bytesWritten;
      trace := [];
    }

    /** The default specification: named after the concrete class, the
        TREZOR name and description, and the emulator at 192.168.0.8:3000. */
    function GetDefaultSpecification(): (s: HardwareWalletSpecification)
      ensures s.className == canonicalName
      ensures s.name == "TREZOR The Bitcoin Safe"
      ensures s.description == TrezorDescription
      ensures s.host == "192.168.0.8" && s.port == 3000
    {
      HardwareWalletSpecification(
        canonicalName,
        "TREZOR The Bitcoin Safe",
        TrezorDescription,
        "192.168.0.8",
        3000)
    }

    /** Hook: close the transport's own resources. */
    method InternalClose()
      modifies this
      ensures trace == old(trace) + [DeviceClose]
    {
      trace := trace + [DeviceClose];
    }

    /** The monitor service's shutdownNow: cancels the monitor at once. */
    method ShutdownMonitorService()
      modifies this
      ensures trace == old(trace) + [MonitorShutdown]
    {
      trace := trace + [MonitorShutdown];
    }

    /** Hook: read one complete message from the device. */
    method ReadFromDevice() returns (m: Message)
      modifies this
      ensures m == reply(old(trace))
      ensures trace == old(trace) + [DeviceRead(m)]
    {
      m := reply(trace);
      trace := trace + [DeviceRead(m)];
    }

    /** Hook: write one packet to the device; reports how many bytes went out. */
    method WriteToDevice(buffer: array<byte>) returns (n: int)
      modifies this
      ensures n == bytesWritten(buffer[..])
      ensures trace == old(trace) + [DeviceWrite(buffer[..])]
    {
      n := bytesWritten(buffer[..]);
      trace := trace + [DeviceWrite(buffer[..])];
    }

    /** Closes the transport, then shuts the monitor service down. */
    method Disconnect()
      modifies this
      ensures trace == AfterDisconnect(old(trace))
    {
      InternalClose();
      ShutdownMonitorService();
    }

    /** Returns what the device read returns, and does nothing else. */
    method ReadMessage() returns (m: Message)
      modifies this
      ensures m == reply(old(trace))
      ensures trace == old(trace) + [DeviceRead(m)]
    {
      m := ReadFromDevice();
    }

    /** Builds the next packet: a fresh 64-byte array holding the length
        header 63 and then the next 63 bytes of the buffer, whose position
        advances by 63. */
    static method FillPacket(messageBuffer: ByteBuffer) returns (buffer: array<byte>)
      requires messageBuffer.Valid() && messageBuffer.position + 63 <= |messageBuffer.content|
      modifies messageBuffer
      ensures fresh(buffer) && messageBuffer.Valid()
      ensures messageBuffer.position == old(messageBuffer.position) + 63
      ensures buffer[..] == [LengthHeader] + messageBuffer.content[old(messageBuffer.position) .. messageBuffer.position]
    {
      buffer := new byte[PacketLength];
      buffer[0] := LengthHeader;
      var ok := messageBuffer.Get(buffer, 1, 63);
      assert ok;
    }

    /** Encodes the message, then sends one 64-byte packet per whole 63-byte
        payload before the buffer's position, reading a message after each
        packet. The bytes after the last whole payload are not sent. */
    method WriteMessage(message: Message)
      modifies this
      ensures trace == old(trace) + Exchange(old(trace), Frame(formatAsHidPackets(message)), reply)
    {
      var encoded := formatAsHidPackets(message);
      ghost var history := trace;
      var messageBuffer := new ByteBuffer(encoded.bytes, encoded.position);

      var packets := messageBuffer.position / 63;
      messageBuffer.Rewind();

      var i := 0;
      while i < packets
        invariant 0 <= i <= packets == PacketCount(encoded.position)
        invariant messageBuffer.Valid() && messageBuffer.content == encoded.bytes
        invariant messageBuffer.position == 63 * i
        invariant trace == history + Exchange(history, Packets(encoded.bytes, i), reply)
      {
        var buffer := FillPacket(messageBuffer);
        ghost var sent := trace;
        var _ := WriteToDevice(buffer);
        var _ := ReadMessage();
        WriteStep(history, encoded.bytes, i, buffer[..], reply, sent);
        i := i + 1;
      }
    }
  }
}
