/** The EXTIO light board (IO.cpp, ExchangeEXTIO): a fixed four-byte frame
    on the serial port carrying the low 23 bits of a light mask, signed with
    a 7-bit additive checksum and acknowledged by the single byte 0x11. */
module Extio {
  import opened Wire
  import opened Lights

  /** The state of the driver's serial port handle. */
  datatype Handle =
    | Absent  // opening COM1 failed: INVALID_HANDLE_VALUE
    | Open    // opened and configured at construction
    | Closed  // closed by the destructor; the handle value is still stored

  /** The byte the board answers a frame with. */
  const ACK: byte := 0x11

  /** The 7-bit additive checksum of the three data bytes. */
  function Checksum(b0: byte, b1: byte, b2: byte): (c: byte)
    ensures c < 0x80
  {
    ((b0 as int + b1 as int + b2 as int) % 0x80) as byte
  }

  /** The frame for mask `m`: its low byte with bit 7 forced on, its middle
      and high bytes, then the checksum of those three. */
  function ExtioFrame(m: bv32): (f: seq<byte>)
    ensures |f| == 4
    ensures f[0] >= 0x80 && f[3] < 0x80
  {
    SyncByte(m);
    var b0 := LowByte(m | 0x80);
    var b1 := ByteOf(m, 1);
    var b2 := ByteOf(m, 2);
    [b0, b1, b2, Checksum(b0, b1, b2)]
  }

  /** A frame the board accepts: the sync bit on the first byte and a
      matching checksum. */
  predicate WellFormed(f: seq<byte>)
  {
    |f| == 4 && f[0] >= 0x80 && f[3] == Checksum(f[0], f[1], f[2])
  }

  /** The mask a frame carries, as the board reads it back. */
  function FrameMask(f: seq<byte>): bv32
    requires |f| == 4
  {
    MaskOfBytes(f[0] % 0x80, f[1], f[2], 0)
  }

  /** Every frame is well formed and carries bits 0-6 and 8-23 of its mask;
      bit 7 is taken by the sync bit and bits 24-31 are not sent. */
  lemma ExtioFrameRoundTrip(m: bv32)
    ensures WellFormed(ExtioFrame(m))
    ensures FrameMask(ExtioFrame(m)) == m & 0x00FF_FF7F
  {
    FrameCarries(m, m & 0x00FF_FF7F);
  }

  lemma FrameCarries(m: bv32, sent: bv32)
    requires sent == m & 0x00FF_FF7F
    ensures FrameMask(ExtioFrame(m)) == sent
  {
    var f := ExtioFrame(m);
    assert f[0] % 0x80 == ByteOf(sent, 0) by {
      SyncByte(m);
      SentBytes(m);
    }
    assert f[1] == ByteOf(sent, 1) && f[2] == ByteOf(sent, 2) && ByteOf(sent, 3) == 0 by {
      SentBytes(m);
    }
    SameBytes(f[0] % 0x80, f[1], f[2], 0, ByteOf(sent, 0), ByteOf(sent, 1), ByteOf(sent, 2), ByteOf(sent, 3));
    BytesRoundTrip(sent);
  }

  lemma SameBytes(a0: byte, a1: byte, a2: byte, a3: byte, b0: byte, b1: byte, b2: byte, b3: byte)
    requires a0 == b0 && a1 == b1 && a2 == b2 && a3 == b3
    ensures MaskOfBytes(a0, a1, a2, a3) == MaskOfBytes(b0, b1, b2, b3)
  {
  }

  /** The bytes of the part of a mask a frame carries. */
  lemma SentBytes(m: bv32)
    ensures ByteOf(m & 0xFF7F, 0) == ByteOf(m & 0xFF_FF7F, 0)
    ensures ByteOf(m, 1) == ByteOf(m & 0xFF_FF7F, 1) && ByteOf(m, 2) == ByteOf(m & 0xFF_FF7F, 2)
    ensures ByteOf(m & 0xFF_FF7F, 3) == 0
  {
  }

  /** The first frame byte is the low byte of the mask with bit 7 set. */
  lemma SyncByte(m: bv32)
    ensures LowByte(m | 0x80) >= 0x80
    ensures LowByte(m | 0x80) - 0x80 == ByteOf(m & 0xFF7F, 0)
  {
    BitsAsByte(((m | 0x80) & 0xFF) as bv8);
    BitsAsByte((m & 0x7F) as bv8);
    assert ((m | 0x80) & 0xFF) as bv8 == (m & 0x7F) as bv8 | 0x80;
  }

  /** The frame of the mask 0x010203. */
  lemma ExtioFrameExample()
    ensures ExtioFrame(0x01_0203) == [0x83, 0x02, 0x01, 0x06]
  {
  }

  /** A pad-light mask travels whole, and only the first frame byte has its
      high bit set, the sync bit the board looks for. */
  lemma PadLightsFrame(lights: bv32)
    ensures var f := ExtioFrame(PadPart(lights));
      && FrameMask(f) == PadPart(lights)
      && f[0] >= 0x80 && f[1] < 0x80 && f[2] < 0x80 && f[3] < 0x80
  {
    var pad := PadPart(lights);
    LightGroups();
    ExtioFrameRoundTrip(pad);
    assert pad & 0x00FF_FF7F == pad;
    PadBytes(pad);
  }

  /** The middle and high bytes of a mask within the pad lights. */
  lemma PadBytes(pad: bv32)
    requires pad & !0x0040_7878 == 0
    ensures ByteOf(pad, 1) < 0x80 && ByteOf(pad, 2) < 0x80
  {
    BitsAsByte(((pad >> 8) & 0xFF) as bv8);
    BitsAsByte(((pad >> 16) & 0xFF) as bv8);
    assert ((pad >> 8) & 0xFF) as bv8 < 0x80;
    assert ((pad >> 16) & 0xFF) as bv8 < 0x80;
  }

  /** What an EXTIO exchange meets on the serial line: the byte count
      WriteFile reports and the bytes the board answers with. */
  datatype ExtioLink = ExtioLink(written: nat, ack: seq<byte>)

  /** The result of an EXTIO exchange and the I/O it performed. */
  datatype ExtioResult = ExtioResult(ok: bool, events: seq<Event>)

  /** Sends mask `m` to the EXTIO and reads the one-byte answer. Nothing is
      sent when the driver is not ready or the port is not open; success
      needs the whole frame written and the acknowledgement read back. */
  function ExchangeEXTIO(ready: bool, extio: Handle, m: bv32, link: ExtioLink): (r: ExtioResult)
    ensures r.events == (if ready && extio.Open? then [ExtioWrite(ExtioFrame(m))] else [])
    ensures r.ok <==> ready && extio.Open? && link.written == 4 && |link.ack| >= 1 && link.ack[0] == ACK
  {
    if !ready || extio.Absent? then ExtioResult(false, [])
    // A write on the closed handle fails before anything reaches the line.
    else if extio.Closed? then ExtioResult(false, [])
    else
      var events := [ExtioWrite(ExtioFrame(m))];
      if link.written != 4 then ExtioResult(false, events)
      else
        // ReadFile into a one-byte buffer.
        var got := link.ack[..Min(|link.ack|, 1)];
        ExtioResult(got == [ACK], events)
  }
}
