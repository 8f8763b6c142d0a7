/**
 * The TFMini-Plus serial driver: an object that owns one serial port and
 * keeps the outcome of its most recent call in its fields. `GetData` reads
 * one measurement frame, `SendCommand` sends one command and waits for its
 * reply; each is proved to leave exactly the state that the value-level
 * specifications `ReadFrame` and `ReadReply` (module Protocol) describe.
 */
module Lidar {
  import opened Bytes
  import opened Protocol
  import opened Transport

  /**
   * The bytes a measurement read works on once the backlog is drained: every
   * byte still to arrive and at most one frame's worth of the buffered ones,
   * the newest.
   */
  function Drained(rx: seq<Byte>, waiting: nat): (s: seq<Byte>)
    requires waiting <= |rx|
    ensures |rx| - |s| == waiting - Min(waiting, TFMP_FRAME_SIZE)
    ensures s == rx[|rx| - |s|..]
  {
    if waiting > TFMP_FRAME_SIZE then rx[waiting - TFMP_FRAME_SIZE..] else rx
  }

  class TFMiniPlus {
    var status: int
    var dist: int
    var flux: int
    var temp: int
    var version: seq<Byte>
    var pStream: Serial?
    var frame: seq<Byte>
    var reply: seq<Byte>

    ghost predicate Valid()
      reads this, pStream
    {
      && |frame| == TFMP_FRAME_SIZE
      && |version| == 3
      && (pStream != null ==> pStream.Valid())
    }

    constructor ()
      ensures Valid()
      ensures status == TFMP_READY && dist == 0 && flux == 0 && temp == 0
      ensures version == Zeros(3) && pStream == null
      ensures frame == Zeros(TFMP_FRAME_SIZE) && reply == Zeros(TFMP_REPLY_SIZE)
    {
      status, dist, flux, temp := 0, 0, 0, 0;
      version := Zeros(3);
      pStream := null;
      frame := Zeros(TFMP_FRAME_SIZE);
      reply := Zeros(TFMP_REPLY_SIZE);
    }

    /**
     * Takes over an opened port (opening it and the settle delay are not
     * modelled) and reports READY when input is already buffered, SERIAL
     * otherwise.
     */
    method Begin(port: Serial) returns (ok: bool)
      requires Valid() && port.Valid()
      modifies this
      ensures Valid() && pStream == port
      ensures ok == (port.waiting > 0)
      ensures status == if ok then TFMP_READY else TFMP_SERIAL
      ensures dist == old(dist) && flux == old(flux) && temp == old(temp)
      ensures version == old(version) && frame == old(frame) && reply == old(reply)
    {
      pStream := port;
      var n := pStream.InWaiting();
      if n > 0 {
        status := TFMP_READY;
        return true;
      } else {
        status := TFMP_SERIAL;
        return false;
      }
    }

    /**
     * Reads one measurement: drains the backlog down to one frame, shifts
     * bytes through a zeroed 9-byte window until it starts 59 59, checks the
     * checksum and decodes the fields.
     */
    method GetData() returns (ok: bool)
      requires Valid() && pStream != null
      modifies this, pStream
      ensures Valid() && pStream == old(pStream)
      ensures var input := Drained(old(pStream.rx), old(pStream.waiting));
              var r := ReadFrame(input);
              var buffered := Min(old(pStream.waiting), TFMP_FRAME_SIZE);
        && ok == (r.status == TFMP_READY)
        && status == r.status && dist == r.dist && flux == r.flux && temp == r.temp
        && frame == r.frame
        && pStream.rx == input[r.consumed..]
        && pStream.waiting == (if r.consumed < buffered then buffered - r.consumed else 0)
      ensures version == old(version) && reply == old(reply) && pStream.tx == old(pStream.tx)
    {
      status, dist, flux, temp := 0, 0, 0, 0;

      // Drain: keep at most one frame's worth of buffered input.
      DrainBacklog(pStream);

      ok := AwaitFrame();
    }

    /**
     * The second half of `getData`, entered with the fields zeroed: waits
     * for a frame, checks it and decodes it.
     */
    method AwaitFrame() returns (ok: bool)
      requires Valid() && pStream != null
      requires status == 0 && dist == 0 && flux == 0 && temp == 0
      modifies this, pStream
      ensures Valid() && pStream == old(pStream) && pStream.tx == old(pStream.tx)
      ensures ok == (ReadFrame(old(pStream.rx)).status == TFMP_READY)
      ensures status == ReadFrame(old(pStream.rx)).status
      ensures dist == ReadFrame(old(pStream.rx)).dist
      ensures flux == ReadFrame(old(pStream.rx)).flux
      ensures temp == ReadFrame(old(pStream.rx)).temp
      ensures frame == ReadFrame(old(pStream.rx)).frame
      ensures var consumed := ReadFrame(old(pStream.rx)).consumed;
        && pStream.rx == old(pStream.rx)[consumed..]
        && pStream.waiting == (if consumed < old(pStream.waiting) then old(pStream.waiting) - consumed else 0)
      ensures version == old(version) && reply == old(reply)
    {
      // Synchronise: slide a zeroed window one byte at a time until it holds a header.
      var found, window := Synchronise(pStream, TFMP_FRAME_SIZE, FRAME_HEADER, FRAME_HEADER);
      frame := window;
      if !found {
        status := TFMP_HEADER;
        return false;
      }

      // Validate and decode.
      if Checksum(frame[..8]) != frame[8] {
        status := TFMP_CHECKSUM;
        return false;
      }
      var m := DecodeFrame(frame);
      dist, flux, temp := m.dist, m.flux, m.temp;
      status := FrameStatus(m);
      return status == TFMP_READY;
    }

    /**
     * Sends one command: builds the packet from the opcode's bytes, splices
     * in the parameter of SET_FRAME_RATE or SET_BAUD_RATE, truncates and
     * checksums it, writes it, and unless the opcode expects no reply
     * waits for the reply, checks it and applies it.
     */
    method SendCommand(cmnd: nat, param: nat) returns (ok: bool)
      requires Valid() && pStream != null
      requires EncodableCommand(cmnd, param) && ReplyLength(cmnd) != 1
      modifies this, pStream
      ensures Valid() && pStream == old(pStream)
      ensures pStream.tx == old(pStream.tx) + EncodeCommand(cmnd, param)
      ensures var input := old(pStream.rx[pStream.waiting..]);
        if ReplyLength(cmnd) == 0 then
          && ok
          && status == old(status) && reply == old(reply) && version == old(version)
          && pStream.rx == input && pStream.waiting == 0
        else
          var r := ReadReply(cmnd, input, old(version));
          && ok == (r.status == TFMP_READY)
          && status == r.status && reply == r.reply && version == r.version
          && pStream.rx == input[r.consumed..] && pStream.waiting == 0
      ensures dist == old(dist) && flux == old(flux) && temp == old(temp) && frame == old(frame)
    {
      // Build the packet.
      var cmndData := BuildPacket(cmnd, param);

      // Send it.
      pStream.ResetInputBuffer();
      pStream.Write(cmndData);
      var replyLen := ReplyLength(cmnd);
      if replyLen == 0 {
        return true;
      }
      ok := AwaitReply(cmnd);
    }

    /**
     * The second half of `sendCommand`: waits for the reply to `cmnd`,
     * checks it and applies it.
     */
    method AwaitReply(cmnd: nat) returns (ok: bool)
      requires Valid() && pStream != null && ReplyLength(cmnd) >= 2
      modifies this, pStream
      ensures Valid() && pStream == old(pStream) && pStream.tx == old(pStream.tx)
      ensures ok == (ReadReply(cmnd, old(pStream.rx), old(version)).status == TFMP_READY)
      ensures status == ReadReply(cmnd, old(pStream.rx), old(version)).status
      ensures reply == ReadReply(cmnd, old(pStream.rx), old(version)).reply
      ensures version == ReadReply(cmnd, old(pStream.rx), old(version)).version
      ensures var consumed := ReadReply(cmnd, old(pStream.rx), old(version)).consumed;
        && pStream.rx == old(pStream.rx)[consumed..]
        && pStream.waiting == (if consumed < old(pStream.waiting) then old(pStream.waiting) - consumed else 0)
      ensures dist == old(dist) && flux == old(flux) && temp == old(temp) && frame == old(frame)
    {
      var replyLen := ReplyLength(cmnd);

      // Synchronise on 5A <replyLen> with a window of the reply's width.
      var found, window := Synchronise(pStream, replyLen, PACKET_HEADER, replyLen);
      reply := window;
      if !found {
        status := TFMP_HEADER;
        return false;
      }

      // Validate and apply the reply.
      if Checksum(reply[..|reply| - 1]) != reply[|reply| - 1] {
        status := TFMP_CHECKSUM;
        return false;
      }
      if cmnd == GET_FIRMWARE_VERSION {
        version := reply[3..6];
      } else if ResetOrSave(cmnd) && reply[3] == 1 {
        status := TFMP_FAIL;
        return false;
      }
      status := TFMP_READY;
      return true;
    }
  }

  /** Reads and drops the oldest buffered bytes until at most one frame's worth is left. */
  method DrainBacklog(port: Serial)
    requires port.Valid()
    modifies port
    ensures port.Valid() && port.tx == old(port.tx)
    ensures port.rx == Drained(old(port.rx), old(port.waiting))
    ensures port.waiting == Min(old(port.waiting), TFMP_FRAME_SIZE)
  {
    ghost var rx0, w0 := port.rx, port.waiting;
    var n := port.InWaiting();
    while n > TFMP_FRAME_SIZE
      invariant port.Valid() && n == port.waiting && n <= w0
      invariant w0 > TFMP_FRAME_SIZE ==> n >= TFMP_FRAME_SIZE
      invariant w0 <= TFMP_FRAME_SIZE ==> n == w0
      invariant port.rx == rx0[w0 - n..] && port.tx == old(port.tx)
      decreases n
    {
      var dropped := port.Read();
      n := port.InWaiting();
    }
  }

  /**
   * The command packet as the driver assembles it: the opcode's eight
   * little-endian bytes with byte 0 overwritten by the header, the
   * parameter spliced in for SET_FRAME_RATE and SET_BAUD_RATE, truncated to
   * the command length and closed with the checksum of the rest.
   */
  method BuildPacket(cmnd: nat, param: nat) returns (cmndData: seq<Byte>)
    requires EncodableCommand(cmnd, param)
    ensures cmndData == EncodeCommand(cmnd, param)
  {
    OpcodeBytes(cmnd);
    Pow256Values();
    cmndData := ToLittleEndian(cmnd, TFMP_COMMAND_MAX);
    var cmndLen := cmndData[1];
    cmndData := cmndData[0 := PACKET_HEADER];
    if cmnd == SET_FRAME_RATE {
      cmndData := cmndData[..3] + ToLittleEndian(param, 2) + cmndData[5..];
      assert forall i :: 0 <= i < TFMP_COMMAND_MAX ==> cmndData[i] == PacketByte(cmnd, param, i);
    } else if cmnd == SET_BAUD_RATE {
      cmndData := cmndData[..3] + ToLittleEndian(param, 3) + cmndData[6..];
      assert forall i :: 0 <= i < TFMP_COMMAND_MAX ==> cmndData[i] == PacketByte(cmnd, param, i);
    } else {
      assert forall i :: 0 <= i < TFMP_COMMAND_MAX ==> cmndData[i] == PacketByte(cmnd, param, i);
    }
    cmndData := cmndData[..Min(cmndLen, |cmndData|)];
    cmndData := cmndData[|cmndData| - 1 := Checksum(cmndData[..|cmndData| - 1])];
    PacketMatches(cmnd, param, cmndData);
  }

  /**
   * The receive loop both reads share: a zeroed n-byte window takes in one
   * byte at a time until it starts h0 h1 or no byte arrives in time. It
   * stops on the first n-byte packet of the incoming bytes that starts
   * h0 h1, having consumed exactly the bytes up to the packet's end, or, when
   * there is none, after consuming everything.
   */
  method Synchronise(port: Serial, n: nat, h0: Byte, h1: Byte) returns (found: bool, window: seq<Byte>)
    requires port.Valid() && 2 <= n && h0 != 0
    modifies port
    ensures port.Valid() && port.tx == old(port.tx)
    ensures var input := old(port.rx); var r := FindHeader(input, n, h0, h1, 0);
      && found == r.Some?
      && (found ==> window == input[r.value..r.value + n] && port.rx == input[r.value + n..])
      && (!found ==> window == Window(n, input) && port.rx == [])
    ensures var consumed := |old(port.rx)| - |port.rx|;
      port.waiting == if consumed < old(port.waiting) then old(port.waiting) - consumed else 0
  {
    ghost var input := port.rx;
    ghost var k: nat := 0;
    window := Zeros(n);
    while window[0] != h0 || window[1] != h1
      invariant port.Valid() && k <= |input|
      invariant port.rx == input[k..] && port.tx == old(port.tx)
      invariant port.waiting == if k < old(port.waiting) then old(port.waiting) - k else 0
      invariant window == Window(n, input[..k])
      invariant NoHeaderBefore(input, k, n, h0, h1)
      decreases |input| - k
    {
      WindowSync(input, k, n, h0, h1);
      var arrived := port.Available();
      if arrived {
        var b := port.Read();
        WindowNext(n, input, k);
        window := (window + [b])[1..];
        k := k + 1;
      } else {
        assert input[..k] == input;
        return false, window;
      }
    }
    WindowSync(input, k, n, h0, h1);
    return true, window;
  }

  /**
   * A buffer whose bytes are the opcode's, with header and parameter, once
   * truncated to the command length and given its checksum, is the packet
   * `EncodeCommand` describes.
   */
  lemma PacketMatches(cmnd: nat, param: nat, pkt: seq<Byte>)
    requires EncodableCommand(cmnd, param)
    requires |pkt| == PacketLength(cmnd)
    requires forall i :: 0 <= i < |pkt| - 1 ==> pkt[i] == PacketByte(cmnd, param, i)
    requires pkt[|pkt| - 1] == Checksum(pkt[..|pkt| - 1])
    ensures pkt == EncodeCommand(cmnd, param)
  {
    var e := EncodeCommand(cmnd, param);
    EncodeCommandBytes(cmnd, param);
    assert pkt[..|pkt| - 1] == e[..|e| - 1];
    assert pkt == pkt[..|pkt| - 1] + [pkt[|pkt| - 1]];
    assert e == e[..|e| - 1] + [e[|e| - 1]];
  }
}
