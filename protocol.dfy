/**
 * The TFMini-Plus protocol as values: the driver's constants, the decoding of
 * a 9-byte measurement frame, the encoding of a command packet from its
 * 32-bit opcode, the specification of what one measurement read and one
 * command reply produce from the bytes that arrive, and the status names.
 */
module Protocol {
  import opened Bytes

  // Buffer sizes and limits (the last four are declared by the driver but not used by it).
  const TFMP_FRAME_SIZE := 9
  const TFMP_COMMAND_MAX := 8
  const TFMP_REPLY_SIZE := 8
  const TFMP_MAX_READS := 20
  const MAX_BYTES_BEFORE_HEADER := 20
  const MAX_ATTEMPTS_TO_MEASURE := 20
  const TFMP_DEFAULT_ADDRESS := 0x10

  // Status codes.
  const TFMP_READY := 0
  const TFMP_SERIAL := 1
  const TFMP_HEADER := 2
  const TFMP_CHECKSUM := 3
  const TFMP_TIMEOUT := 4
  const TFMP_PASS := 5
  const TFMP_FAIL := 6
  const TFMP_I2CREAD := 7
  const TFMP_I2CWRITE := 8
  const TFMP_I2CLENGTH := 9
  const TFMP_WEAK := 10
  const TFMP_STRONG := 11
  const TFMP_FLOOD := 12
  const TFMP_MEASURE := 13

  // Opcodes: byte 0 is the reply length, byte 1 the command length, then the payload.
  const GET_FIRMWARE_VERSION: nat := 0x00010407
  const TRIGGER_DETECTION: nat := 0x00040400
  const SOFT_RESET: nat := 0x00020405
  const HARD_RESET: nat := 0x00100405
  const SAVE_SETTINGS: nat := 0x00110405
  const SET_FRAME_RATE: nat := 0x00030606
  const SET_BAUD_RATE: nat := 0x00060808
  const STANDARD_FORMAT_CM: nat := 0x01050505
  const PIXHAWK_FORMAT: nat := 0x02050505
  const STANDARD_FORMAT_MM: nat := 0x06050505
  const ENABLE_OUTPUT: nat := 0x01070505
  const DISABLE_OUTPUT: nat := 0x00070505
  const SET_I2C_ADDRESS: nat := 0x100B0505
  const SET_SERIAL_MODE: nat := 0x000A0500
  const SET_I2C_MODE: nat := 0x010A0500
  const I2C_FORMAT_CM: nat := 0x01000500
  const I2C_FORMAT_MM: nat := 0x06000500

  // Parameters of SET_BAUD_RATE (3 bytes) and SET_FRAME_RATE (2 bytes).
  const BAUD_9600: nat := 0x002580
  const BAUD_14400: nat := 0x003840
  const BAUD_19200: nat := 0x004B00
  const BAUD_56000: nat := 0x00DAC0
  const BAUD_115200: nat := 0x01C200
  const BAUD_460800: nat := 0x070800
  const BAUD_921600: nat := 0x0E1000

  const FRAME_0: nat := 0x0000
  const FRAME_1: nat := 0x0001
  const FRAME_2: nat := 0x0002
  const FRAME_5: nat := 0x0005
  const FRAME_10: nat := 0x000A
  const FRAME_20: nat := 0x0014
  const FRAME_25: nat := 0x0019
  const FRAME_50: nat := 0x0032
  const FRAME_100: nat := 0x0064
  const FRAME_125: nat := 0x007D
  const FRAME_200: nat := 0x00C8
  const FRAME_250: nat := 0x00FA
  const FRAME_500: nat := 0x01F4
  const FRAME_1000: nat := 0x03E8

  const FRAME_HEADER: Byte := 0x59
  const PACKET_HEADER: Byte := 0x5A

  /** Every BAUD_n constant is n and fits the 3-byte parameter; every FRAME_n is n and fits 2 bytes. */
  lemma RateConstants()
    ensures BAUD_9600 == 9600 && BAUD_14400 == 14400 && BAUD_19200 == 19200
    ensures BAUD_56000 == 56000 && BAUD_115200 == 115200 && BAUD_460800 == 460800
    ensures BAUD_921600 == 921600 && BAUD_921600 < Pow256(3)
    ensures FRAME_0 == 0 && FRAME_1 == 1 && FRAME_2 == 2 && FRAME_5 == 5 && FRAME_10 == 10
    ensures FRAME_20 == 20 && FRAME_25 == 25 && FRAME_50 == 50 && FRAME_100 == 100
    ensures FRAME_125 == 125 && FRAME_200 == 200 && FRAME_250 == 250 && FRAME_500 == 500
    ensures FRAME_1000 == 1000 && FRAME_1000 < Pow256(2)
  {
  }

  // ---------------------------------------------------------------------------
  // Measurement frames: 59 59 DistLo DistHi FluxLo FluxHi TempLo TempHi Chk

  datatype Measurement = Measurement(dist: int, flux: int, temp: int)

  /** The fields of a 9-byte frame, decoded unsigned as the driver does. */
  function DecodeFrame(f: seq<Byte>): (m: Measurement)
    requires |f| == TFMP_FRAME_SIZE
    ensures m.dist == FromLittleEndian(f[2..4]) && 0 <= m.dist <= 0xFFFF
    ensures m.flux == FromLittleEndian(f[4..6]) && 0 <= m.flux <= 0xFFFF
    ensures m.temp == FromLittleEndian(f[6..8]) / 8 - 256 && -256 <= m.temp <= 7935
  {
    // (hi << 8) + lo, and raw >> 3 on a non-negative raw value
    Measurement(f[3] as int * 256 + f[2], f[5] as int * 256 + f[4], (f[7] as int * 256 + f[6]) / 8 - 256)
  }

  /** Raw distance 0x0064 is 100 cm; raw temperature 2048 is 0 degrees. */
  lemma DecodeExamples(f: seq<Byte>)
    requires |f| == TFMP_FRAME_SIZE
    requires f[2] == 0x64 && f[3] == 0x00 && f[6] == 0x00 && f[7] == 0x08
    ensures DecodeFrame(f).dist == 100 && DecodeFrame(f).temp == 0
  {
  }

  /** Raw distance FF FF is 65535, not -1: the driver reads it unsigned and stays READY. */
  lemma AllOnesDistance(f: seq<Byte>)
    requires |f| == TFMP_FRAME_SIZE && f[2] == 0xFF && f[3] == 0xFF
    ensures DecodeFrame(f).dist == 65535 && FrameStatus(DecodeFrame(f)) == TFMP_READY
  {
  }

  /** The status chosen from the decoded fields (the signal-quality overrides). */
  function FrameStatus(m: Measurement): int
  {
    if m.dist == -1 then TFMP_WEAK
    else if m.flux == -1 then TFMP_STRONG
    else if m.dist == -4 then TFMP_FLOOD
    else TFMP_READY
  }

  /**
   * Distance and flux are decoded unsigned, so the WEAK, STRONG and FLOOD
   * overrides never fire: every decoded frame is READY.
   */
  lemma DecodedFrameIsReady(f: seq<Byte>)
    requires |f| == TFMP_FRAME_SIZE
    ensures FrameStatus(DecodeFrame(f)) == TFMP_READY
  {
  }

  /** What one measurement read leaves behind. */
  datatype FrameRead = FrameRead(status: int, dist: int, flux: int, temp: int,
                                 frame: seq<Byte>, consumed: nat)

  /**
   * The outcome of a measurement read over the bytes `input` that the driver
   * can consume before its deadline: the first 9-byte frame starting 59 59,
   * its checksum test and its fields.
   */
  function ReadFrame(input: seq<Byte>): FrameRead
  {
    match FindHeader(input, TFMP_FRAME_SIZE, FRAME_HEADER, FRAME_HEADER, 0)
    case None =>
      FrameRead(TFMP_HEADER, 0, 0, 0, Window(TFMP_FRAME_SIZE, input), |input|)
    case Some(p) =>
      var f := input[p..p + TFMP_FRAME_SIZE];
      if Checksum(f[..8]) != f[8] then
        FrameRead(TFMP_CHECKSUM, 0, 0, 0, f, p + TFMP_FRAME_SIZE)
      else
        var m := DecodeFrame(f);
        FrameRead(FrameStatus(m), m.dist, m.flux, m.temp, f, p + TFMP_FRAME_SIZE)
  }

  predicate FrameHeaderAt(s: seq<Byte>, p: nat)
  {
    HeaderAt(s, p, TFMP_FRAME_SIZE, FRAME_HEADER, FRAME_HEADER)
  }

  /**
   * The three outcomes of a measurement read: HEADER exactly when no full
   * frame starts with 59 59; otherwise the first such frame is taken whole,
   * and it is CHECKSUM with zeroed fields when its last byte is not the sum
   * of the other eight, and READY with the decoded fields when it is.
   */
  lemma ReadFrameOutcomes(input: seq<Byte>)
    ensures var r := ReadFrame(input);
      && |r.frame| == TFMP_FRAME_SIZE
      && r.consumed <= |input|
      && (r.status == TFMP_HEADER <==> forall p: nat :: !FrameHeaderAt(input, p))
      && (r.status == TFMP_HEADER ==> r.consumed == |input| && r.frame == Window(TFMP_FRAME_SIZE, input))
      && (r.status != TFMP_HEADER ==>
            && r.consumed >= TFMP_FRAME_SIZE
            && FrameHeaderAt(input, r.consumed - TFMP_FRAME_SIZE)
            && (forall q: nat :: q < r.consumed - TFMP_FRAME_SIZE ==> !FrameHeaderAt(input, q))
            && r.frame == input[r.consumed - TFMP_FRAME_SIZE..r.consumed])
      && (r.status == TFMP_CHECKSUM <==> r.status != TFMP_HEADER && Checksum(r.frame[..8]) != r.frame[8])
      && (r.status == TFMP_READY <==> r.status != TFMP_HEADER && Checksum(r.frame[..8]) == r.frame[8])
      && (r.status == TFMP_READY || r.status == TFMP_HEADER || r.status == TFMP_CHECKSUM)
      && (r.status != TFMP_READY ==> r.dist == 0 && r.flux == 0 && r.temp == 0)
      && (r.status == TFMP_READY ==> Measurement(r.dist, r.flux, r.temp) == DecodeFrame(r.frame))
  {
    match FindHeader(input, TFMP_FRAME_SIZE, FRAME_HEADER, FRAME_HEADER, 0)
    case None =>
      assert forall p: nat :: !FrameHeaderAt(input, p);
    case Some(p) =>
      assert FrameHeaderAt(input, p);
      DecodedFrameIsReady(input[p..p + TFMP_FRAME_SIZE]);
  }

  /**
   * A frame preceded by noise in which no 59 59 pair starts is found and
   * taken whole; exactly the noise before it is discarded.
   */
  lemma ReadFrameSkipsNoise(noise: seq<Byte>, f: seq<Byte>, rest: seq<Byte>)
    requires |f| == TFMP_FRAME_SIZE && f[0] == FRAME_HEADER && f[1] == FRAME_HEADER
    requires forall q :: 0 <= q < |noise| ==> !((noise + f)[q] == FRAME_HEADER && (noise + f)[q + 1] == FRAME_HEADER)
    ensures ReadFrame(noise + f + rest).frame == f
    ensures ReadFrame(noise + f + rest).consumed == |noise| + TFMP_FRAME_SIZE
    ensures ReadFrame(noise + f + rest).status ==
      if Checksum(f[..8]) == f[8] then TFMP_READY else TFMP_CHECKSUM
  {
    var s := noise + f + rest;
    assert FrameHeaderAt(s, |noise|);
    forall q: nat | q < |noise|
      ensures !FrameHeaderAt(s, q)
    {
      assert s[q] == (noise + f)[q] && s[q + 1] == (noise + f)[q + 1];
    }
    assert s[|noise|..|noise| + TFMP_FRAME_SIZE] == f;
  }

  /** With nothing to read, a measurement read times out and reports no stale frame. */
  lemma ReadFrameNothingArrives()
    ensures ReadFrame([]) == FrameRead(TFMP_HEADER, 0, 0, 0, Zeros(TFMP_FRAME_SIZE), 0)
  {
  }

  // ---------------------------------------------------------------------------
  // Command packets: 5A Len <payload> [ParamLo [ParamMid ParamHi]] Chk

  /** Byte 0 of the opcode: the expected reply length. */
  function ReplyLength(cmnd: nat): (n: Byte)
    ensures cmnd == GET_FIRMWARE_VERSION ==> n == 7
    ensures ResetOrSave(cmnd) ==> n == 5
  {
    cmnd % 256
  }

  /** Byte 1 of the opcode: the command length. */
  function CommandLength(cmnd: nat): Byte
  {
    cmnd / 256 % 256
  }

  /** What `sendCommand` needs to build a packet without raising. */
  predicate EncodableCommand(cmnd: nat, param: nat)
  {
    && cmnd < 0x1_0000_0000_0000_0000
    && CommandLength(cmnd) >= 1
    && (cmnd == SET_FRAME_RATE ==> param < 0x1_0000)
    && (cmnd == SET_BAUD_RATE ==> param < 0x100_0000)
  }

  lemma Pow256Values()
    ensures Pow256(2) == 0x1_0000 && Pow256(3) == 0x100_0000
    ensures Pow256(8) == 0x1_0000_0000_0000_0000
  {
  }

  /** The 8 little-endian bytes of the opcode start with the reply length and the command length. */
  lemma OpcodeBytes(cmnd: nat)
    requires cmnd < 0x1_0000_0000_0000_0000
    ensures Pow256(8) == 0x1_0000_0000_0000_0000
    ensures ToLittleEndian(cmnd, 8)[0] == ReplyLength(cmnd)
    ensures ToLittleEndian(cmnd, 8)[1] == CommandLength(cmnd)
  {
    Pow256Values();
    assert cmnd / 256 < Pow256(7);
    assert ToLittleEndian(cmnd, 8)[1..] == ToLittleEndian(cmnd / 256, 7);
  }

  /** The opcode's packet is truncated to its command length, and the buffer has 8 bytes. */
  function PacketLength(cmnd: nat): nat
  {
    Min(CommandLength(cmnd), TFMP_COMMAND_MAX)
  }

  /** Byte i (i < 8) of the buffer before truncation: header, spliced parameter, or opcode byte. */
  function PacketByte(cmnd: nat, param: nat, i: nat): Byte
    requires EncodableCommand(cmnd, param) && i < TFMP_COMMAND_MAX
  {
    Pow256Values();
    if i == 0 then PACKET_HEADER
    else if cmnd == SET_FRAME_RATE && 3 <= i < 5 then ToLittleEndian(param, 2)[i - 3]
    else if cmnd == SET_BAUD_RATE && 3 <= i < 6 then ToLittleEndian(param, 3)[i - 3]
    else ToLittleEndian(cmnd, 8)[i]
  }

  /**
   * The packet written for an opcode and parameter: the command-length
   * prefix of the buffer, with its last byte replaced by the checksum of
   * the bytes before it.
   */
  function EncodeCommand(cmnd: nat, param: nat): (pkt: seq<Byte>)
    requires EncodableCommand(cmnd, param)
    ensures |pkt| == PacketLength(cmnd) >= 1
    ensures pkt[|pkt| - 1] == Checksum(pkt[..|pkt| - 1])
    ensures |pkt| >= 2 ==> pkt[0] == PACKET_HEADER
    ensures |pkt| >= 3 ==> pkt[1] == CommandLength(cmnd)
  {
    var body := seq(PacketLength(cmnd) - 1, i requires 0 <= i < TFMP_COMMAND_MAX => PacketByte(cmnd, param, i));
    OpcodeBytes(cmnd);
    assert (body + [Checksum(body)])[..|body|] == body;
    body + [Checksum(body)]
  }

  /** The reply and command lengths of every named opcode, as their first two bytes give them. */
  lemma OpcodeTable()
    ensures ReplyLength(GET_FIRMWARE_VERSION) == 7 && CommandLength(GET_FIRMWARE_VERSION) == 4
    ensures ReplyLength(TRIGGER_DETECTION) == 0 && CommandLength(TRIGGER_DETECTION) == 4
    ensures ReplyLength(SOFT_RESET) == 5 && CommandLength(SOFT_RESET) == 4
    ensures ReplyLength(HARD_RESET) == 5 && CommandLength(HARD_RESET) == 4
    ensures ReplyLength(SAVE_SETTINGS) == 5 && CommandLength(SAVE_SETTINGS) == 4
    ensures ReplyLength(SET_FRAME_RATE) == 6 && CommandLength(SET_FRAME_RATE) == 6
    ensures ReplyLength(SET_BAUD_RATE) == 8 && CommandLength(SET_BAUD_RATE) == 8
    ensures ReplyLength(STANDARD_FORMAT_CM) == 5 && CommandLength(STANDARD_FORMAT_CM) == 5
    ensures ReplyLength(PIXHAWK_FORMAT) == 5 && CommandLength(PIXHAWK_FORMAT) == 5
    ensures ReplyLength(STANDARD_FORMAT_MM) == 5 && CommandLength(STANDARD_FORMAT_MM) == 5
    ensures ReplyLength(ENABLE_OUTPUT) == 5 && CommandLength(ENABLE_OUTPUT) == 5
    ensures ReplyLength(DISABLE_OUTPUT) == 5 && CommandLength(DISABLE_OUTPUT) == 5
    ensures ReplyLength(SET_I2C_ADDRESS) == 5 && CommandLength(SET_I2C_ADDRESS) == 5
    ensures ReplyLength(SET_SERIAL_MODE) == 0 && CommandLength(SET_SERIAL_MODE) == 5
    ensures ReplyLength(SET_I2C_MODE) == 0 && CommandLength(SET_I2C_MODE) == 5
    ensures ReplyLength(I2C_FORMAT_CM) == 0 && CommandLength(I2C_FORMAT_CM) == 5
    ensures ReplyLength(I2C_FORMAT_MM) == 0 && CommandLength(I2C_FORMAT_MM) == 5
  {
  }

  lemma ChecksumOfThree(a: Byte, b: Byte, c: Byte)
    ensures Checksum([a, b, c]) == (a + b + c) % 256
  {
    assert [] + [a] == [a] && [a] + [b] == [a, b] && [a, b] + [c] == [a, b, c];
    ChecksumAppend([], a);
    ChecksumAppend([a], b);
    ChecksumAppend([a, b], c);
    assert Checksum([a, b]) == (a + b) % 256;
  }

  /** Every byte of a packet before the checksum is the buffer's byte at that offset. */
  lemma EncodeCommandBytes(cmnd: nat, param: nat)
    requires EncodableCommand(cmnd, param)
    ensures var pkt := EncodeCommand(cmnd, param);
      forall i :: 0 <= i < |pkt| - 1 ==> pkt[i] == PacketByte(cmnd, param, i)
  {
  }

  /**
   * An opcode with command length 4 and no parameter is sent as 5A 04, its
   * third byte, and the checksum of those three.
   */
  lemma FourBytePacket(cmnd: nat, param: nat)
    requires EncodableCommand(cmnd, param) && CommandLength(cmnd) == 4
    requires cmnd != SET_FRAME_RATE && cmnd != SET_BAUD_RATE
    ensures Pow256(8) == 0x1_0000_0000_0000_0000
    ensures var b := ToLittleEndian(cmnd, 8)[2];
      EncodeCommand(cmnd, param) == [0x5A, 0x04, b, (0x5E + b as int) % 256]
  {
    OpcodeBytes(cmnd);
    EncodeCommandBytes(cmnd, param);
    var b := ToLittleEndian(cmnd, 8)[2];
    var pkt := EncodeCommand(cmnd, param);
    assert pkt[..3] == [0x5A, 0x04, b];
    ChecksumOfThree(0x5A, 0x04, b);
    assert pkt == pkt[..3] + [pkt[3]];
  }

  /** GET_FIRMWARE_VERSION is sent as 5A 04 01 5F and TRIGGER_DETECTION as 5A 04 04 62. */
  lemma PacketExamples(param: nat)
    ensures EncodeCommand(GET_FIRMWARE_VERSION, param) == [0x5A, 0x04, 0x01, 0x5F]
    ensures EncodeCommand(TRIGGER_DETECTION, param) == [0x5A, 0x04, 0x04, 0x62]
  {
    Pow256Values();
    assert ToLittleEndian(GET_FIRMWARE_VERSION, 8)[2] == 0x01;
    FourBytePacket(GET_FIRMWARE_VERSION, param);
    assert ToLittleEndian(TRIGGER_DETECTION, 8)[2] == 0x04;
    FourBytePacket(TRIGGER_DETECTION, param);
  }

  /** SET_FRAME_RATE carries its parameter little-endian in bytes 3 and 4 of a 6-byte packet. */
  lemma FrameRatePacket(rate: nat)
    requires rate < 0x1_0000
    ensures var pkt := EncodeCommand(SET_FRAME_RATE, rate);
      && |pkt| == 6
      && pkt[..3] == [0x5A, 0x06, 0x03]
      && pkt[3] == rate % 256 && pkt[4] == rate / 256
      && FromLittleEndian(pkt[3..5]) == rate
  {
    Pow256Values();
    TwoBytes(rate);
    EncodeCommandBytes(SET_FRAME_RATE, rate);
    OpcodeBytes(SET_FRAME_RATE);
    assert ToLittleEndian(SET_FRAME_RATE, 8)[2] == 0x03;
    var pkt := EncodeCommand(SET_FRAME_RATE, rate);
    assert pkt[3..5] == ToLittleEndian(rate, 2);
    LittleEndianRoundTrip(rate, 2);
  }

  /** SET_BAUD_RATE carries its parameter little-endian in bytes 3 to 5 of an 8-byte packet. */
  lemma BaudRatePacket(baud: nat)
    requires baud < 0x100_0000
    ensures var pkt := EncodeCommand(SET_BAUD_RATE, baud);
      && |pkt| == 8
      && pkt[..3] == [0x5A, 0x08, 0x06] && pkt[6] == 0
      && pkt[3] == baud % 256 && pkt[4] == baud / 256 % 256 && pkt[5] == baud / 0x1_0000
      && FromLittleEndian(pkt[3..6]) == baud
  {
    Pow256Values();
    ThreeBytes(baud);
    EncodeCommandBytes(SET_BAUD_RATE, baud);
    OpcodeBytes(SET_BAUD_RATE);
    assert ToLittleEndian(SET_BAUD_RATE, 8)[2] == 0x06 && ToLittleEndian(SET_BAUD_RATE, 8)[6] == 0;
    var pkt := EncodeCommand(SET_BAUD_RATE, baud);
    assert pkt[3..6] == ToLittleEndian(baud, 3);
    LittleEndianRoundTrip(baud, 3);
  }

  /** The parameter reaches the packet only for SET_FRAME_RATE and SET_BAUD_RATE. */
  lemma ParameterIgnored(cmnd: nat, p: nat, q: nat)
    requires EncodableCommand(cmnd, p) && cmnd != SET_FRAME_RATE && cmnd != SET_BAUD_RATE
    ensures EncodableCommand(cmnd, q) && EncodeCommand(cmnd, p) == EncodeCommand(cmnd, q)
  {
    var n := PacketLength(cmnd) - 1;
    var bp := seq(n, i requires 0 <= i < TFMP_COMMAND_MAX => PacketByte(cmnd, p, i));
    var bq := seq(n, i requires 0 <= i < TFMP_COMMAND_MAX => PacketByte(cmnd, q, i));
    assert bp == bq;
  }

  // ---------------------------------------------------------------------------
  // Replies: 5A Len <payload> Chk

  predicate ResetOrSave(cmnd: nat)
  {
    cmnd == SOFT_RESET || cmnd == HARD_RESET || cmnd == SAVE_SETTINGS
  }

  /** What one reply exchange leaves behind. */
  datatype ReplyRead = ReplyRead(status: int, reply: seq<Byte>, version: seq<Byte>, consumed: nat)

  predicate ReplyHeaderAt(cmnd: nat, s: seq<Byte>, p: nat)
  {
    HeaderAt(s, p, ReplyLength(cmnd), PACKET_HEADER, ReplyLength(cmnd))
  }

  /**
   * The outcome of waiting for the reply to `cmnd` over the bytes `input`
   * that arrive before the deadline, starting from the stored `version`.
   */
  function ReadReply(cmnd: nat, input: seq<Byte>, version: seq<Byte>): ReplyRead
    requires ReplyLength(cmnd) >= 2
  {
    var n := ReplyLength(cmnd);
    match FindHeader(input, n, PACKET_HEADER, n, 0)
    case None =>
      ReplyRead(TFMP_HEADER, Window(n, input), version, |input|)
    case Some(p) =>
      var rep := input[p..p + n];
      if Checksum(rep[..n - 1]) != rep[n - 1] then ReplyRead(TFMP_CHECKSUM, rep, version, p + n)
      else if cmnd == GET_FIRMWARE_VERSION then ReplyRead(TFMP_READY, rep, rep[3..6], p + n)
      else if ResetOrSave(cmnd) && rep[3] == 1 then ReplyRead(TFMP_FAIL, rep, version, p + n)
      else ReplyRead(TFMP_READY, rep, version, p + n)
  }

  /**
   * The outcomes of a reply exchange: HEADER exactly when no reply of the
   * expected length starting 5A <length> arrives; otherwise the first one is
   * taken whole, CHECKSUM when its last byte is not the sum of the others,
   * FAIL when a reset or save reports 1 in byte 3, READY otherwise; only a
   * READY firmware-version reply changes the version, to bytes 3 to 5.
   */
  lemma ReadReplyOutcomes(cmnd: nat, input: seq<Byte>, version: seq<Byte>)
    requires ReplyLength(cmnd) >= 2
    ensures var r := ReadReply(cmnd, input, version); var n := ReplyLength(cmnd);
      && |r.reply| == n
      && r.consumed <= |input|
      && (r.status == TFMP_HEADER <==> forall p: nat :: !ReplyHeaderAt(cmnd, input, p))
      && (r.status == TFMP_HEADER ==> r.consumed == |input| && r.reply == Window(n, input))
      && (r.status != TFMP_HEADER ==>
            && r.consumed >= n
            && ReplyHeaderAt(cmnd, input, r.consumed - n)
            && (forall q: nat :: q < r.consumed - n ==> !ReplyHeaderAt(cmnd, input, q))
            && r.reply == input[r.consumed - n..r.consumed]
            && r.reply[0] == PACKET_HEADER && r.reply[1] == n)
      && (r.status == TFMP_CHECKSUM <==>
            r.status != TFMP_HEADER && Checksum(r.reply[..n - 1]) != r.reply[n - 1])
      && (r.status == TFMP_FAIL <==>
            && r.status != TFMP_HEADER && Checksum(r.reply[..n - 1]) == r.reply[n - 1]
            && ResetOrSave(cmnd) && r.reply[3] == 1)
      && (r.status == TFMP_READY || r.status == TFMP_HEADER || r.status == TFMP_CHECKSUM || r.status == TFMP_FAIL)
      && (if cmnd == GET_FIRMWARE_VERSION && r.status == TFMP_READY
          then r.version == r.reply[3..6] else r.version == version)
  {
    var n := ReplyLength(cmnd);
    match FindHeader(input, n, PACKET_HEADER, n, 0)
    case None =>
      assert forall p: nat :: !ReplyHeaderAt(cmnd, input, p);
    case Some(p) =>
      assert ReplyHeaderAt(cmnd, input, p);
  }

  /** A reply preceded by noise in which no 5A <length> pair starts is found and taken whole. */
  lemma ReadReplySkipsNoise(cmnd: nat, noise: seq<Byte>, rep: seq<Byte>, rest: seq<Byte>, version: seq<Byte>)
    requires ReplyLength(cmnd) >= 2 && |rep| == ReplyLength(cmnd)
    requires rep[0] == PACKET_HEADER && rep[1] == ReplyLength(cmnd)
    requires forall q :: 0 <= q < |noise| ==>
      !((noise + rep)[q] == PACKET_HEADER && (noise + rep)[q + 1] == ReplyLength(cmnd))
    ensures ReadReply(cmnd, noise + rep + rest, version).reply == rep
    ensures ReadReply(cmnd, noise + rep + rest, version).consumed == |noise| + |rep|
  {
    var s := noise + rep + rest;
    assert HeaderAt(s, |noise|, |rep|, PACKET_HEADER, ReplyLength(cmnd));
    forall q: nat | q < |noise|
      ensures !ReplyHeaderAt(cmnd, s, q)
    {
      assert s[q] == (noise + rep)[q] && s[q + 1] == (noise + rep)[q + 1];
    }
    assert s[|noise|..|noise| + |rep|] == rep;
  }

  // ---------------------------------------------------------------------------
  // Status names

  /** The name `printStatus` shows; every code outside 0..12, TFMP_MEASURE included, is OTHER. */
  function StatusName(status: int): (name: string)
    ensures name == "OTHER" <==> !(TFMP_READY <= status <= TFMP_FLOOD)
    ensures status == TFMP_MEASURE ==> name == "OTHER"
  {
    var names := map[
      TFMP_READY := "READY",
      TFMP_SERIAL := "SERIAL",
      TFMP_HEADER := "HEADER",
      TFMP_CHECKSUM := "CHECKSUM",
      TFMP_TIMEOUT := "TIMEOUT",
      TFMP_PASS := "PASS",
      TFMP_FAIL := "FAIL",
      TFMP_I2CREAD := "I2C-READ",
      TFMP_I2CWRITE := "I2C-WRITE",
      TFMP_I2CLENGTH := "I2C-LENGTH",
      TFMP_WEAK := "Signal weak",
      TFMP_STRONG := "Signal saturation",
      TFMP_FLOOD := "Ambient light saturation"
    ];
    if status in names then names[status] else "OTHER"
  }
}
