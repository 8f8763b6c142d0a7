# TFMini-Plus lidar driver, modelled in Dafny

This project models the serial driver for the Benewake TFMini-Plus lidar,
class `TFMiniPlus` in `lidar.py`, and proves properties of the model.

The driver owns a serial port. It keeps the outcome of its last call in the
fields `status`, `dist`, `flux`, `temp`, `version`, `frame` and `reply`. It
has two operations.

- **`getData`** first drains the backlog down to one frame. It then shifts
  incoming bytes through a zeroed 9-byte window until the window starts
  `59 59`. Next it checks the 8-bit sum checksum. Last, it decodes distance,
  flux and temperature and sets the status.
- **`sendCommand`** unpacks a 32-bit opcode into 8 little-endian bytes:
  - byte 0 is the reply length and byte 1 the command length;
  - byte 0 is then overwritten with `5A`;
  - the parameter of SET_FRAME_RATE or SET_BAUD_RATE is spliced in;
  - the buffer is truncated to the command length and closed with a checksum.

  It writes the packet. Unless the reply length is 0, it then waits for a
  reply window starting `5A <length>`, checks that reply and applies it.

The model has four modules:

- **`Bytes`** (`bytes.dfy`) holds the basic pieces: bytes, the sum checksum,
  little-endian integers, the fixed-width sliding window and the header
  search it performs.
- **`Protocol`** (`protocol.dfy`) holds the driver's constants and the
  frame decoding and checksum as values. It encodes the command packet
  declaratively as `EncodeCommand`. It also has two specification functions,
  `ReadFrame` and `ReadReply`, and the status-name lookup of
  `printStatus`:
  - `ReadFrame` says what a measurement read produces from the bytes the
    driver can consume;
  - `ReadReply` says the same for a command's reply.
- **`Transport`** (`transport.dfy`) holds the serial port as a class
  `Serial`. Its `rx` holds every byte that reaches the port before the
  driver's one-second deadline. `waiting` is how many of those are already
  buffered, and `tx` logs what was written.
- **`Lidar`** (`lidar.dfy`) holds the driver as a class `TFMiniPlus`, with
  the same fields and its methods written imperatively:
  - loops that shift one byte at a time;
  - a packet buffer built by slice assignment and truncation.

  Each method is proved to leave exactly the state that `ReadFrame`,
  `ReadReply` and `EncodeCommand` describe. The properties the driver
  promises are proved as lemmas about those functions.

The Python methods are written as one block each. Each is split here into
named steps, which are methods with their own contracts:

- `getData` splits into `DrainBacklog` and `AwaitFrame` (which calls
  `Synchronise`);
- `sendCommand` splits into `BuildPacket` and `AwaitReply` (which calls
  `Synchronise`).

Both receive loops are one `Synchronise` method, parameterised by window
width and header bytes. The Python loops differ only in those values.

The model follows the code, and the opcode constants of `lidar.py:28-44`,
exactly:

- Distance and flux are decoded **unsigned**, so raw `FF FF` is 65535, not
  -1. The WEAK, STRONG and FLOOD overrides therefore never fire.
  `DecodedFrameIsReady` and `AllOnesDistance` state this.
- Byte 0 of SET_SERIAL_MODE (`0x000A0500`), SET_I2C_MODE (`0x010A0500`),
  I2C_FORMAT_CM and I2C_FORMAT_MM is 0. So their reply length is 0 and
  `sendCommand` reads no reply for them. The 0x0A in byte 2 of the two mode
  opcodes is a command id, not a length.
- SET_I2C_ADDRESS (`0x100B0505`) has reply length 5 and command length 5.
  Its byte 2, 0x0B, is the command id. It gets no parameter splice, so the
  address byte sent is the constant's byte 3, 0x10.

Some inputs make Python raise, or depend on a call order the source always
keeps. The methods' preconditions exclude them:

- **No port** (`requires pStream != null` on `GetData`, `SendCommand`,
  `AwaitFrame`, `AwaitReply`). Before `begin`, `pStream` is None, and
  `lidar.py:92` or `lidar.py:129` would raise AttributeError. Every caller
  in the repository calls `begin` first: `lidar.py:189-193`,
  `servoGamepad.py:41-46` and `servoGamepadClass.py:31-56`.
- **Opcode of 2^64 or more** (`EncodableCommand`). `to_bytes` at
  `lidar.py:120` overflows. A negative opcode is excluded by `cmnd: nat`,
  and it raises there too.
- **Parameter too wide or negative for SET_FRAME_RATE or SET_BAUD_RATE**
  (`EncodableCommand`, `param: nat`). `to_bytes` at `lidar.py:124` or
  `lidar.py:126` raises. Every other opcode never converts `param`, so Python
  accepts a negative one there and ignores it. `param: nat` leaves that case
  out, and `ParameterIgnored` shows the value does not matter anyway.
- **Command length 0** (`EncodableCommand`). The buffer is empty, and the
  index -1 at `lidar.py:128` raises IndexError.
- **Reply length 1** (`ReplyLength(cmnd) != 1`). The `or` at
  `lidar.py:136` short-circuits, so `reply[1]` is read only once the 1-byte
  window holds 5A. An opcode with reply length 1 therefore raises
  IndexError as soon as a 5A byte arrives. If none arrives before the
  deadline, it returns False with HEADER (`lidar.py:140-142`). No named
  opcode has reply length 1 (`OpcodeTable`), and the whole case is excluded,
  HEADER outcome included.

## Model

| member | source | states |
|---|---|---|
| Bytes.ChecksumAppend | lidar.py:102 | appending a byte to a packet adds it to the `sum(...) & 0xFF` checksum modulo 256 |
| Bytes.LittleEndianRoundTrip | lidar.py:120 | reading back the little-endian bytes of an x < 256^n gives x |
| Bytes.LittleEndianInverse | lidar.py:120 | every byte string is the little-endian encoding of its own value |
| Bytes.TwoBytes | lidar.py:124 | `param.to_bytes(2, 'little')` is [p mod 256, p div 256] |
| Bytes.ThreeBytes | lidar.py:126 | `param.to_bytes(3, 'little')` is its low, middle and high byte |
| Bytes.WindowIsSuffix | lidar.py:94-98 | after shifting s through a zeroed n-byte window, the window is the last n bytes of n zeros followed by s |
| Bytes.WindowFull | lidar.py:94-98 | once at least n bytes went in, the window holds exactly the last n of them |
| Bytes.WindowPadded | lidar.py:94-98 | while fewer than n bytes went in, the window still starts with a padding zero (so it cannot match a nonzero header) |
| Bytes.WindowShift | lidar.py:97-98 | one append-and-drop step of the loop is one more byte shifted into the window |
| Bytes.FindHeader | lidar.py:95 | the result is the first position from which an n-byte packet starting h0 h1 fits, and None exactly when there is none |
| Bytes.WindowSync | lidar.py:95-98 | if the window holds a header after k bytes, that header starts the first matching packet at k - n; if it holds none, no matching packet ends within the first k bytes |
| Protocol.RateConstants | lidar.py:46-67 | every BAUD_n constant is n and fits 3 bytes; every FRAME_n constant is n and fits 2 bytes |
| Protocol.DecodeFrame | lidar.py:106-108 | distance and flux are the unsigned little-endian values of bytes 2-3 and 4-5, in 0..65535; temperature is that of bytes 6-7 divided by 8, minus 256, in -256..7935 |
| Protocol.DecodeExamples | lidar.py:106-108 | raw distance 0x0064 decodes to 100 and raw temperature 2048 to 0 |
| Protocol.AllOnesDistance | lidar.py:106-116 | raw distance FF FF decodes to 65535 and the frame is READY, not WEAK |
| Protocol.DecodedFrameIsReady | lidar.py:109-117 | the WEAK, STRONG and FLOOD branches are unreachable: every checksum-valid frame is READY |
| Protocol.ReadFrameOutcomes | lidar.py:89-117 | HEADER exactly when no full frame starting 59 59 arrives, with everything consumed; otherwise the first such frame is taken whole and nothing after it is consumed; CHECKSUM iff its last byte is not the sum of the other eight, READY iff it is; the fields stay 0 unless READY, and are then the decoded frame |
| Protocol.ReadFrameSkipsNoise | lidar.py:94-98 | a frame after noise containing no 59 59 pair is found whole, and exactly the noise before it is discarded |
| Protocol.ReadFrameNothingArrives | lidar.py:94-101 | with no input, the read reports HEADER with zero fields and an all-zero window |
| Protocol.ReplyLength | lidar.py:121 | byte 0 of the opcode; GET_FIRMWARE_VERSION expects 7 bytes and the reset and save commands expect 5 |
| Protocol.OpcodeBytes | lidar.py:120-121 | bytes 0 and 1 of the opcode's 8-byte little-endian form are its reply length and command length |
| Protocol.OpcodeTable | lidar.py:28-44 | the (reply length, command length) pair of every named opcode, e.g. (7,4) for GET_FIRMWARE_VERSION and (0,5) for SET_SERIAL_MODE |
| Protocol.EncodeCommand | lidar.py:120-128 | the packet's length is the command length (capped at 8, at least 1); it starts with 5A and the command length; its last byte is the checksum of the bytes before it |
| Protocol.EncodeCommandBytes | lidar.py:122-127 | each packet byte before the checksum is the header, the spliced parameter byte, or the opcode's own byte at that offset |
| Protocol.FourBytePacket | lidar.py:120-128 | a 4-byte command without parameter is 5A 04, its third opcode byte, and the checksum of those three |
| Protocol.PacketExamples | lidar.py:120-128 | GET_FIRMWARE_VERSION is sent as 5A 04 01 5F and TRIGGER_DETECTION as 5A 04 04 62, whatever the parameter |
| Protocol.FrameRatePacket | lidar.py:123-124 | SET_FRAME_RATE with rate < 2^16 is a 6-byte packet 5A 06 03 lo hi chk, whose bytes 3-4 read back as the rate |
| Protocol.BaudRatePacket | lidar.py:125-126 | SET_BAUD_RATE with baud < 2^24 is an 8-byte packet 5A 08 06 b0 b1 b2 00 chk, whose bytes 3-5 read back as the baud rate |
| Protocol.ParameterIgnored | lidar.py:123-127 | every opcode other than SET_FRAME_RATE and SET_BAUD_RATE encodes to the same packet whatever the parameter |
| Protocol.ReadReplyOutcomes | lidar.py:134-153 | HEADER exactly when no reply of the expected length starting 5A <length> arrives; otherwise the first one is taken whole; CHECKSUM iff its last byte is not the sum of the others; FAIL iff the checksum holds and a reset or save reports 1 in byte 3; READY otherwise; only a READY firmware query changes the version, to reply bytes 3-5 |
| Protocol.ReadReplySkipsNoise | lidar.py:135-139 | a reply after noise containing no 5A <length> pair is found whole, and exactly the noise before it is consumed |
| Protocol.StatusName | lidar.py:155-171 | the name is OTHER exactly for codes outside 0..12, so TFMP_MEASURE (13) is OTHER |
| Transport.Serial.constructor | lidar.py:80 | an opened port with the given incoming bytes, of which the first `buffered` are already buffered |
| Transport.Serial.InWaiting | lidar.py:92 | `inWaiting()` returns how many bytes are buffered |
| Transport.Serial.Available | lidar.py:96-99 | polling until the deadline yields a byte exactly when one more arrives in time |
| Transport.Serial.Read | lidar.py:93 | `read()` takes the oldest byte and leaves the written bytes alone |
| Transport.Serial.ResetInputBuffer | lidar.py:129 | `reset_input_buffer()` discards exactly the buffered bytes |
| Transport.Serial.Write | lidar.py:131 | `write()` appends the packet to what was sent and leaves the input alone |
| Lidar.Drained | lidar.py:92-93 | after draining, the input is what is still to arrive plus the newest min(buffered, 9) buffered bytes |
| Lidar.DrainBacklog | lidar.py:92-93 | drops the oldest buffered bytes until at most 9 remain, leaving `Drained(...)` with min(buffered, 9) buffered |
| Lidar.Synchronise | lidar.py:94-101 | the shared receive loop stops on the first n-byte packet starting h0 h1, with the window equal to it and exactly the bytes up to its end consumed; if there is none, it consumes everything and the window is `Window(n, input)` |
| Lidar.BuildPacket | lidar.py:120-128 | the buffer built by overwriting, splicing, truncating and checksumming is `EncodeCommand(cmnd, param)` |
| Lidar.PacketMatches | lidar.py:127-128 | a truncated buffer whose bytes are those `PacketByte` gives and whose last byte is the checksum is the packet `EncodeCommand` describes |
| Lidar.TFMiniPlus.constructor | lidar.py:69-77 | status and the measurement fields are 0, version is 3 zero bytes, no port, frame and reply are zero buffers of 9 and 8 bytes |
| Lidar.TFMiniPlus.Begin | lidar.py:79-87 | takes the port; true and READY iff input is already buffered, otherwise SERIAL; no other field changes |
| Lidar.TFMiniPlus.GetData | lidar.py:89-117 | the new status, fields, frame and port state are those `ReadFrame` gives for the drained input; true iff READY; version, reply and the written bytes are unchanged |
| Lidar.TFMiniPlus.AwaitFrame | lidar.py:94-117 | from zeroed fields, status, fields, frame, consumed input and buffer count are those of `ReadFrame` |
| Lidar.TFMiniPlus.SendCommand | lidar.py:119-153 | writes exactly `EncodeCommand(cmnd, param)` after discarding the buffered input; with reply length 0 returns true and changes no status, reply or version; otherwise status, reply, version and consumed input are those `ReadReply` gives; the measurement fields and frame are unchanged |
| Lidar.TFMiniPlus.AwaitReply | lidar.py:134-153 | status, reply, version and consumed input are those of `ReadReply`; true iff READY |

## Left out

- Opening the port in `begin` (`serial.Serial(port, rate)`, the baud rate and the 200 ms settle delay) is I/O. `Begin` takes an already-opened `Serial`.
- The wall clock (`time.time()` and the one-second deadlines) is not modelled. `Serial.rx` stands for the bytes that arrive before the deadline, and the deadline passes when the driver waits with `rx` empty.
- Lidar.TFMiniPlus.GetData: the Python loop checks the clock after taking a byte. If a header completes just as the deadline passes, the driver still reports HEADER; the model reports the frame.
- Lidar.TFMiniPlus.SendCommand: the same clock race in the reply loop is not modelled, for the same reason.
- `reset_output_buffer()` is not modelled. A written packet counts as sent at once, so there is no pending output to discard.
- `printFrame`, `printReply`, the printing done by `printStatus`, and the `__main__` polling loop are console I/O. Only the status-name lookup of `printStatus` is modelled, as `StatusName`.
- Lidar.TFMiniPlus.SendCommand: the excluded inputs listed above are not modelled as errors. These are an opcode of 2^64 or more; a too wide or negative frame-rate or baud-rate parameter; a negative parameter of any other opcode, which Python ignores; a command length of 0; and a reply length of 1, including its HEADER outcome when no 5A arrives. The same goes for calls made before `begin`.
- The rest of the repository is not part of this model: the camera, gamepad and servo modules and their process wiring.
