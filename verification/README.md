# PLC link and register-block decoder

A Dafny model of the core of a small Node.js bridge between a PLC and 3D
robot viewers. It covers two parts of `server.js`:

- **The PLC link.** The shared state is the pair (`isConnected`,
  `connectionAttempts`). `connectToPLC` sets it to (true, 0) or counts one
  more failure. `readRobotData` reconnects at most once per call. Once
  `MAX_CONNECTION_ATTEMPTS` (5) connects have failed, it stops trying.
  The viewers' 100 ms timer and the `requestData` socket event read only
  while the link is already up.
- **The register decoder.** This is the read half of Modbus function code
  0x03, Read Holding Registers (section 6.3 of the Modbus Application
  Protocol Specification V1.1b3). The server reads 18 registers from
  address 100. Each 16-bit word is written big-endian into a zero-filled
  36-byte buffer. Six little-endian 32-bit values are read back at byte
  offsets 0, 4, …, 20 as joints 1–6.

The Modbus TCP transport is an oracle. Each operation receives the outcome
of its TCP connect (`connectOk`) and the reply to its register read
(`Registers(words)` or `ReadFailed`). The timestamp is a parameter. Joints
are 32-bit bit patterns. `readFloatLE` reinterprets the same four bytes as
an IEEE 754 binary32 value, and that reinterpretation is not modelled.

Files:

- `results.dfy`: `Option` and `Result`.
- `bytes.dfy`: bytes, 16-bit words, 32-bit patterns, byte swap and halves.
- `register_block.dfy`: the buffer writes, the decoder, and an encoder
  that is its inverse. The encoder is the model's own reference, not the
  server's write path.
- `link.dfy`: the link state, `connectToPLC` and `readRobotData`.
- `streaming.dfy`: the interval-timer and `requestData` handlers.
- `reachability.dfy`: runs of handler calls, the invariant that every
  reachable state keeps, and the circuit breaker over whole runs.

The code does not check that a reply holds exactly 18 registers. A shorter
block leaves zero bytes in the buffer and decodes as if padded with zero
registers. A longer block makes `writeUInt16BE` throw at offset 36. The
catch at server.js:133-137 then turns this into `null` and a disconnect.
The model follows the code here; a stricter design would reject any block
whose length is not 18.

Two consequences of the code are proved over whole runs:

- Ticks and `requestData` never reconnect. After one failed read, viewers
  get nothing until a `/read-data` request reconnects the link.
- After five failed connects in a row, nothing in the server ever connects
  again.

## Model

| member | source | states |
|---|---|---|
| Link.ConnectToPlc | server.js:59-74 | success leaves the link connected with the counter at 0; failure leaves it disconnected with the counter one higher |
| Link.ReadAndDecode | server.js:91-137 | on a connected link, one register read and no connect. Data comes back and the link stays up exactly when the reply decodes. A failed read or an overflowing block disconnects and keeps the counter. Data carries the reference joint values and isMockData = false |
| Link.ReadRobotData | server.js:77-138 | disconnected with 5 or more failures: no connect, no read, null, state unchanged. Disconnected below 5: exactly one connect. A failed one returns null with the counter + 1; a successful one resets the counter to 0 and reads once, and the link stays up exactly when the reply decodes. Connected: no connect. Afterwards the link is up exactly when data was returned, and data carries the reference joint values, the timestamp and isMockData = false |
| RegisterBlock.WriteUInt16BE | server.js:100 | a write succeeds exactly when both bytes fit. It stores the high byte then the low byte at the offset and changes no other byte. Otherwise it raises a range error |
| RegisterBlock.FillFrom | server.js:98-101 | the copy loop succeeds exactly when every register fits. Register i then lands at bytes 2i and 2i+1 and every other byte is unchanged |
| RegisterBlock.Linearize | server.js:97-101 | the buffer is built exactly when the block has at most 18 registers. Then byte j is the big-endian byte of register j/2, or 0 past the block. Otherwise the error is the write at offset 36 |
| RegisterBlock.FirstOverflowIsAtBufferEnd | server.js:98-101 | a block of more than 18 registers fails at the write of register 18, offset 36 |
| RegisterBlock.ReadJointMatchesSpec | server.js:106-111 | the little-endian read at offset 4k equals the byte-swapped registers 2k and 2k+1 as low and high halves |
| RegisterBlock.Decode | server.js:97-111 | decoding succeeds exactly when the block has at most 18 registers. Joint k is then byte-swapped register 2k plus 2^16 times byte-swapped register 2k+1, with missing registers read as 0 |
| RegisterBlock.DecodeEncode | server.js:104-111 | decoding the encoded block of six patterns gives back the six patterns |
| RegisterBlock.EncodeDecode | server.js:97-111 | encoding the decoded joints gives back registers 0..11 (0 past a short block) followed by zeros, so decoding loses only registers 12..17 |
| RegisterBlock.ShortBlockIsZeroPadded | server.js:97-101 | a block shorter than 18 registers decodes like the same block padded with zero registers |
| RegisterBlock.JointDependsOnItsRegisters | server.js:104-111 | joint k depends only on registers 2k and 2k+1 |
| RegisterBlock.SameLeadingRegistersDecodeAlike | server.js:104-116 | blocks that agree on registers 0..11 decode alike, so registers 12..17 never affect the output |
| RegisterBlock.FortyFiveDegreesExample | server.js:98-119 | registers 0x0000, 0x3442 and sixteen zeros decode to joint 1 = 0x42340000 (the pattern of 45.0) and joints 2–6 = 0 |
| Streaming.StreamTick | server.js:212-226 | a tick never connects and keeps the counter. A disconnected link is left alone with nothing emitted. A connected link is read once. A failed read or an overflowing block disconnects it. A reading is emitted exactly when the link was up and the reply decodes; it carries the reference joint values and the timestamp and is never mock data |
| Streaming.RequestData | server.js:257-264 | `requestData` never connects and does nothing on a disconnected link |
| Streaming.RequestDataMatchesTick | server.js:257-264 | `requestData` has the same effect and emission as a timer tick on every input |
| Reachability.Startup | server.js:273-279 | the startup connect gives (connected, 0 failures) when it succeeds and (disconnected, 1 failure) when it fails |
| Reachability.StepPreservesInvariant | server.js:77-138 | every handler call keeps the invariant: counter at most 5, and 0 whenever connected |
| Reachability.RunPreservesInvariant | server.js:212-264 | any sequence of handler calls keeps the invariant |
| Reachability.ReachableStatesKeepInvariant | server.js:54-56 | after startup and any handler calls, the counter is at most 5 and is 0 whenever the link is up |
| Reachability.BreakerIsPermanent | server.js:78-88 | from the tripped state (disconnected, 5 failures), no sequence of events changes the state or sends a connect |
| Reachability.FailedConnectsCount | server.js:68-73 | each `/read-data` request whose connect fails adds one to the counter and sends one connect, up to the limit |
| Reachability.FiveFailuresTripBreaker | server.js:79-88 | a failed startup connect plus four failed reconnects trip the breaker, and no later event connects |
| Reachability.ViewersNeverReconnect | server.js:212-226 | ticks and `requestData` events never send a connect and keep the counter. A disconnected link stays as it is through them |

## Left out

- Express static serving, socket.io setup and emission framing, and `getLocalIP`: these are I/O and environment.
- The `modbus-serial` calls (`connectTCP`, `setID`, `setTimeout`, `readHoldingRegisters`, `close`): the transport is an oracle. `PLC_CONFIG` and the 2000 ms timeout appear only as the constant `Link.PlcConfig`. Registers are 16-bit unsigned by type, so `writeUInt16BE` never gets an out-of-range value.
- The float reinterpretation of `readFloatLE`, the `toFixed` logging and `console` output. Joints are bit patterns.
- `new Date().toISOString()`: the timestamp is a parameter.
- Timers, `setInterval`/`clearInterval`, and interleavings of overlapping asynchronous handlers: handler calls are modelled one at a time. The server has no lock, so two overlapping reconnects could push the counter past 5. The invariant holds only under one-at-a-time execution.
- The startup connect is modelled as the first step. In the server it may finish after other handlers have started.
- The commented-out write path (`writeToPLC`, `writeAllJoints`, `controlCommand`): it is dead code. `RegisterBlock.Encode` is the inverse of the read layout and not that code.
- The `/health` endpoint (a pure read of the state) and SIGINT shutdown. `/read-data` appears only as the `ReadEndpoint` event, which calls `readRobotData` unguarded. Its JSON wrapping is left out.
- Bytes 24–35 of the buffer: the server does not decode them (its x, y, z reads are commented out).
