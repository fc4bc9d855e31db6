# Trezor HID framing and wallet lifecycle

A model of `AbstractTrezorHardwareWallet`, the base of the Trezor wallets in
multibit-hardware. It covers:

- **Writing a message** (`writeMessage`). The encoded message buffer is cut
  into 64-byte USB HID packets. Byte 0 of each packet is always 63, and bytes
  1..63 are the next 63 bytes of the buffer. Only `position / 63` packets are
  sent, so the last `position mod 63` bytes are never sent. After each packet
  the wallet reads a message from the device.
- **Reading a message** (`readMessage`): it returns whatever `readFromDevice`
  returns.
- **Disconnecting** (`disconnect`): it calls `internalClose()`, then
  `shutdownNow()` on the monitor service.
- **The default specification** (`getDefaultSpecification`): a constant
  record.

The project has three modules:

- `HidFraming` (framing.dfy) holds the signed Java `byte`, the packet
  constants, and the framing as pure functions. `PacketCount` is the packet
  count, `Packet` packet i, `Frame` the packets of a buffer, and `Payloads`
  their concatenated payloads. The framing lemmas are here too.
- `NioByteBuffer` (byte_buffer.dfy) holds the part of `java.nio.ByteBuffer`
  the loop uses: `position`, `rewind` and the relative bulk `get`.
- `TrezorWallet` (wallet.dfy) holds the call trace, the specification
  `Exchange` of the calls a write makes, its lemmas, and the class
  `AbstractTrezorHardwareWallet`. The class has a `trace` field, and its
  methods append to it.

`WriteMessage` is an imperative loop. In each iteration, `FillPacket`
allocates a 64-byte array, sets byte 0 to 63, and fills bytes 1..63 with
`ByteBuffer.Get`. This is the source's loop body (lines 63-65), moved into
its own method. The loop then calls `WriteToDevice` and `ReadMessage`. Its
postcondition says the trace grows by exactly
`Exchange(old(trace), Frame(encoded), reply)`. The lemmas about `Exchange` and
`Frame` show what that means: the number of writes, each packet's bytes,
their order, the dropped remainder, and the alternation of writes and reads.

The code's behaviour is kept as it is. The trailing `position mod 63` bytes
are dropped, a read follows every write, and a repeated `disconnect` closes
and shuts down again.

The collaborators outside the core are fields of the class, fixed at
construction:

- `formatAsHidPackets: Message -> EncodedBuffer` is the encoder. It returns
  some bytes and a position no larger than their length.
- `reply: seq<Call> -> Message` gives what `readFromDevice` returns, as a
  function of every call made before that read.
- `bytesWritten: seq<byte> -> int` gives what `writeToDevice` reports.
  `writeMessage` ignores this value.

## Model

| member | source | states |
|---|---|---|
| `HidFraming.PacketCount` | trezor/src/main/java/org/multibit/hd/hardware/trezor/wallets/AbstractTrezorHardwareWallet.java:56 | the packet count n is floor(position / 63): 63·n ≤ position < 63·n + 63, and n is 0 exactly when position < 63 |
| `HidFraming.Packet` | trezor/src/main/java/org/multibit/hd/hardware/trezor/wallets/AbstractTrezorHardwareWallet.java:63-65 | packet i is 64 bytes, byte 0 is the length constant 63, and bytes 1..63 are buffer bytes [63·i, 63·i + 63) |
| `HidFraming.Packets` | trezor/src/main/java/org/multibit/hd/hardware/trezor/wallets/AbstractTrezorHardwareWallet.java:61-65 | the loop over n iterations emits exactly n packets |
| `HidFraming.PacketsAt` | trezor/src/main/java/org/multibit/hd/hardware/trezor/wallets/AbstractTrezorHardwareWallet.java:61-65 | the k-th packet emitted is packet k of the buffer: packets come out in increasing order of i |
| `HidFraming.PacketsWellFormed` | trezor/src/main/java/org/multibit/hd/hardware/trezor/wallets/AbstractTrezorHardwareWallet.java:63-64 | every packet emitted is 64 bytes long and starts with the length byte 63 |
| `HidFraming.Frame` | trezor/src/main/java/org/multibit/hd/hardware/trezor/wallets/AbstractTrezorHardwareWallet.java:56-65 | a buffer is framed into exactly PacketCount(position) packets |
| `HidFraming.PayloadsOfPackets` | trezor/src/main/java/org/multibit/hd/hardware/trezor/wallets/AbstractTrezorHardwareWallet.java:61-65 | the first n packets are well formed, and their payloads concatenated in order are the first 63·n buffer bytes |
| `HidFraming.FrameShape` | trezor/src/main/java/org/multibit/hd/hardware/trezor/wallets/AbstractTrezorHardwareWallet.java:56-65 | there are position / 63 packets, each 64 bytes long with header 63; packet i carries buffer bytes [63·i, 63·i + 63), all of them before the position |
| `HidFraming.FrameReassembles` | trezor/src/main/java/org/multibit/hd/hardware/trezor/wallets/AbstractTrezorHardwareWallet.java:56-65 | the payloads in order are exactly the first 63·(position / 63) bytes; the position mod 63 bytes before the position are the only part of the message not sent |
| `HidFraming.FrameIgnoresTail` | trezor/src/main/java/org/multibit/hd/hardware/trezor/wallets/AbstractTrezorHardwareWallet.java:56-65 | two buffers with the same position that agree on the first 63·(position / 63) bytes give the same packets: the trailing bytes, and those at or past the position, never reach a packet |
| `HidFraming.ShortBufferSendsNothing` | trezor/src/main/java/org/multibit/hd/hardware/trezor/wallets/AbstractTrezorHardwareWallet.java:56-61 | no packet at all is produced exactly when the position is below 63 |
| `NioByteBuffer.ByteBuffer.constructor` | trezor/src/main/java/org/multibit/hd/hardware/trezor/wallets/AbstractTrezorHardwareWallet.java:54 | the buffer the encoder returns holds its bytes and a position within them |
| `NioByteBuffer.ByteBuffer.Rewind` | trezor/src/main/java/org/multibit/hd/hardware/trezor/wallets/AbstractTrezorHardwareWallet.java:58 | rewind sets the position to 0 and leaves the bytes alone |
| `NioByteBuffer.ByteBuffer.Get` | trezor/src/main/java/org/multibit/hd/hardware/trezor/wallets/AbstractTrezorHardwareWallet.java:65 | with enough bytes left, copies the next `length` bytes into `dst[offset..offset+length)`, leaves the rest of `dst` alone and advances the position by `length`; otherwise it reports underflow and changes nothing |
| `TrezorWallet.Exchange` | trezor/src/main/java/org/multibit/hd/hardware/trezor/wallets/AbstractTrezorHardwareWallet.java:61-80 | writing k packets appends exactly 2·k device calls |
| `TrezorWallet.ExchangeStep` | trezor/src/main/java/org/multibit/hd/hardware/trezor/wallets/AbstractTrezorHardwareWallet.java:75-78 | one more packet appends its write and then a read answered by the device, to whatever trace the earlier packets left |
| `TrezorWallet.WriteStep` | trezor/src/main/java/org/multibit/hd/hardware/trezor/wallets/AbstractTrezorHardwareWallet.java:61-78 | one loop iteration turns the exchange of the first i packets into the exchange of the first i + 1 |
| `TrezorWallet.ExchangeAt` | trezor/src/main/java/org/multibit/hd/hardware/trezor/wallets/AbstractTrezorHardwareWallet.java:75-78 | call 2k writes packet k; call 2k + 1 is a read whose result is the device's reply to the whole trace before it |
| `TrezorWallet.ExchangeWrites` | trezor/src/main/java/org/multibit/hd/hardware/trezor/wallets/AbstractTrezorHardwareWallet.java:61-80 | the packets written are exactly the given packets, in the given order, and there is one read per packet |
| `TrezorWallet.ExchangeAlternates` | trezor/src/main/java/org/multibit/hd/hardware/trezor/wallets/AbstractTrezorHardwareWallet.java:75-78 | the calls strictly alternate, write first, then read, and there is no other kind of call |
| `TrezorWallet.WriteMessageContract` | trezor/src/main/java/org/multibit/hd/hardware/trezor/wallets/AbstractTrezorHardwareWallet.java:52-81 | a write sends position / 63 packets, each 64 bytes with header 63, in order, whose payloads make up the first 63·(position / 63) buffer bytes; it makes as many reads as writes, alternating with them |
| `TrezorWallet.AfterDisconnect` | trezor/src/main/java/org/multibit/hd/hardware/trezor/wallets/AbstractTrezorHardwareWallet.java:38-43 | a disconnect keeps the earlier trace and appends internalClose, then shutdownNow, with nothing between them |
| `TrezorWallet.DisconnectTwice` | trezor/src/main/java/org/multibit/hd/hardware/trezor/wallets/AbstractTrezorHardwareWallet.java:38-43 | a second disconnect is not a no-op: it appends the close and the shutdown again |
| `TrezorWallet.AbstractTrezorHardwareWallet.GetDefaultSpecification` | trezor/src/main/java/org/multibit/hd/hardware/trezor/wallets/AbstractTrezorHardwareWallet.java:26-35 | the default specification uses the concrete class's canonical name as identifier, the name "TREZOR The Bitcoin Safe", the source's description, host 192.168.0.8 and port 3000 |
| `TrezorWallet.AbstractTrezorHardwareWallet.Disconnect` | trezor/src/main/java/org/multibit/hd/hardware/trezor/wallets/AbstractTrezorHardwareWallet.java:38-43 | the new trace is the old one followed by internalClose and then shutdownNow |
| `TrezorWallet.AbstractTrezorHardwareWallet.ReadMessage` | trezor/src/main/java/org/multibit/hd/hardware/trezor/wallets/AbstractTrezorHardwareWallet.java:46-50 | returns exactly what readFromDevice returns, and records only that one read |
| `TrezorWallet.AbstractTrezorHardwareWallet.FillPacket` | trezor/src/main/java/org/multibit/hd/hardware/trezor/wallets/AbstractTrezorHardwareWallet.java:63-65 | the new array holds the length byte 63 followed by the next 63 bytes of the buffer, and the buffer's position advances by 63 |
| `TrezorWallet.AbstractTrezorHardwareWallet.WriteMessage` | trezor/src/main/java/org/multibit/hd/hardware/trezor/wallets/AbstractTrezorHardwareWallet.java:52-81 | the trace grows by exactly `Exchange(old trace, Frame(encoded message), reply)`: one write and then one read for each packet of the frame, in order, and nothing else |
| `TrezorWallet.AbstractTrezorHardwareWallet.InternalClose` | trezor/src/main/java/org/multibit/hd/hardware/trezor/wallets/AbstractTrezorHardwareWallet.java:83-86 | the transport close hook is recorded as one call |
| `TrezorWallet.AbstractTrezorHardwareWallet.ShutdownMonitorService` | trezor/src/main/java/org/multibit/hd/hardware/trezor/wallets/AbstractTrezorHardwareWallet.java:41 | the monitor service's shutdownNow is recorded as one call |
| `TrezorWallet.AbstractTrezorHardwareWallet.ReadFromDevice` | trezor/src/main/java/org/multibit/hd/hardware/trezor/wallets/AbstractTrezorHardwareWallet.java:88-93 | the read hook returns the device's reply to the trace so far, and records the read with that reply |
| `TrezorWallet.AbstractTrezorHardwareWallet.WriteToDevice` | trezor/src/main/java/org/multibit/hd/hardware/trezor/wallets/AbstractTrezorHardwareWallet.java:95-102 | the write hook records the exact bytes of the packet array and returns the transport's byte count |

## Left out

- Message encoding (`TrezorMessageUtils.formatAsHIDPackets`) is a protobuf serialiser whose source is not part of this model. It is the `formatAsHidPackets` function field, which returns any bytes with a position within them.
- The transport hooks `writeToDevice`, `readFromDevice` and `internalClose` are USB HID or socket I/O. They are modelled only as recorded calls, with the read's result and the write's byte count given by the `reply` and `bytesWritten` function fields.
- `hardwareWalletMonitorService.shutdownNow()` is modelled as one recorded call. The executor semantics (cancelling running tasks, returning the pending ones) are concurrency and are not modelled.
- The debug logging, including the hex dump built for each packet, only affects observability and is not modelled.
- The `synchronized` modifier on `disconnect` gives mutual exclusion between threads. Concurrency is not modelled, so every call runs to completion before the next starts.
- A `ByteBuffer`'s capacity, limit and mark are not modelled. `content` stands for the bytes up to the limit. The loop never reads past the position before rewind, so `Get` never underflows there.
- `HardwareWalletSpecification` has other fields in the core library (not part of this model). The model's record holds only the five that `getDefaultSpecification` sets.
- Exceptions thrown by the transport hooks (and so propagated out of `writeMessage`, `readMessage` or `disconnect`) are not modelled. The hooks always succeed.
- Java `int` overflow cannot arise: the position of a buffer is below 2^31, and so are `packets` and `i`. Integers are unbounded in the model.
