/** Bytes, the record of device I/O, and small sequence helpers shared by
    every part of the IO driver model. */
module Wire {

  /** An `unsigned char` of the driver. */
  newtype byte = x: int | 0 <= x < 0x100

  /** The driver's `~b` stored back into an `unsigned char`: the one's
      complement over eight bits. */
  function Complement(b: byte): byte
  {
    0xFF - b
  }

  /** An 8-bit vector read as a byte. */
  function ToByte(b: bv8): byte
  {
    b as int as byte
  }

  /** A byte as an 8-bit vector. */
  function FromByte(b: byte): bv8
  {
    b as int as bv8
  }

  /** Reading eight bits as a byte and back loses nothing. */
  lemma BitsAsByte(v: bv8)
    ensures FromByte(ToByte(v)) == v
  {
  }

  /** The low eight bits of a 32-bit mask, as the driver's `m & 0xFF`
      stored into an `unsigned char`. */
  function LowByte(m: bv32): byte
  {
    ToByte((m & 0xFF) as bv8)
  }

  /** A mask with exactly one bit set. */
  predicate SingleBit(b: bv32)
  {
    b != 0 && b & (b - 1) == 0
  }

  /** Byte `n` (0 = least significant) of a 32-bit mask: `(m >> 8n) & 0xFF`. */
  function ByteOf(m: bv32, n: nat): byte
    requires n < 4
  {
    if n == 0 then LowByte(m)
    else if n == 1 then LowByte(m >> 8)
    else if n == 2 then LowByte(m >> 16)
    else LowByte(m >> 24)
  }

  /** The 32-bit mask whose bytes, least significant first, are `b0`-`b3`. */
  function MaskOfBytes(b0: byte, b1: byte, b2: byte, b3: byte): bv32
  {
    ((FromByte(b3) as bv32) << 24) | ((FromByte(b2) as bv32) << 16) | ((FromByte(b1) as bv32) << 8) | (FromByte(b0) as bv32)
  }

  /** Cutting a mask into bytes and putting them back together is the
      identity. */
  lemma BytesRoundTrip(m: bv32)
    ensures MaskOfBytes(ByteOf(m, 0), ByteOf(m, 1), ByteOf(m, 2), ByteOf(m, 3)) == m
  {
    BitsAsByte((m & 0xFF) as bv8);
    BitsAsByte(((m >> 8) & 0xFF) as bv8);
    BitsAsByte(((m >> 16) & 0xFF) as bv8);
    BitsAsByte(((m >> 24) & 0xFF) as bv8);
  }

  /** One hand-over of data to a device. A session operation returns the
      list of these, in order, in place of performing the Win32 calls. */
  datatype Event =
    | P3IOWrite(frame: seq<byte>)   // WriteFile on the P3IO handle
    | ExtioWrite(frame: seq<byte>)  // WriteFile on the EXTIO serial port
    | ButtonPoll                    // the DeviceIoControl button poll

  function Min(a: nat, b: nat): nat
  {
    if a <= b then a else b
  }

  /** A caller's receive buffer as the driver declares it: `{ 0x00 }`. */
  function Zeros(n: nat): (z: seq<byte>)
    ensures |z| == n
    ensures forall i :: 0 <= i < n ==> z[i] == 0
  {
    seq(n, _ => 0)
  }

  /** `buf` after its first `|data|` bytes have been overwritten by `data`. */
  function Overlay(buf: seq<byte>, data: seq<byte>): (r: seq<byte>)
    requires |data| <= |buf|
    ensures |r| == |buf|
  {
    data + buf[|data|..]
  }
}
