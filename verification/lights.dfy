/** The light definitions (IO.h) and how SetLights splits a light mask
    between the P3IO, which drives the cabinet lights through command 0x24,
    and the EXTIO, which drives the pad lights and bass neons. */
module Lights {
  import opened Wire
  import opened Codec

  const LIGHT_1P_MENU: bv32 := 0x0100_0000
  const LIGHT_2P_MENU: bv32 := 0x0200_0000

  const LIGHT_MARQUEE_LOWER_RIGHT: bv32 := 0x1000_0000
  const LIGHT_MARQUEE_UPPER_RIGHT: bv32 := 0x2000_0000
  const LIGHT_MARQUEE_LOWER_LEFT: bv32 := 0x4000_0000
  const LIGHT_MARQUEE_UPPER_LEFT: bv32 := 0x8000_0000

  const LIGHT_1P_RIGHT: bv32 := 0x0000_0008
  const LIGHT_1P_LEFT: bv32 := 0x0000_0010
  const LIGHT_1P_DOWN: bv32 := 0x0000_0020
  const LIGHT_1P_UP: bv32 := 0x0000_0040

  const LIGHT_2P_RIGHT: bv32 := 0x0000_0800
  const LIGHT_2P_LEFT: bv32 := 0x0000_1000
  const LIGHT_2P_DOWN: bv32 := 0x0000_2000
  const LIGHT_2P_UP: bv32 := 0x0000_4000

  const LIGHT_BASS_NEONS: bv32 := 0x0040_0000

  /** The cabinet lights, driven by the P3IO. */
  const CabinetLights: seq<bv32> := [
    LIGHT_1P_MENU, LIGHT_2P_MENU,
    LIGHT_MARQUEE_LOWER_RIGHT, LIGHT_MARQUEE_UPPER_RIGHT,
    LIGHT_MARQUEE_LOWER_LEFT, LIGHT_MARQUEE_UPPER_LEFT
  ]

  /** The pad lights and neons, driven by the EXTIO. */
  const PadLights: seq<bv32> := [
    LIGHT_1P_RIGHT, LIGHT_1P_LEFT, LIGHT_1P_DOWN, LIGHT_1P_UP,
    LIGHT_2P_RIGHT, LIGHT_2P_LEFT, LIGHT_2P_DOWN, LIGHT_2P_UP,
    LIGHT_BASS_NEONS
  ]

  /** The union of a list of light bits from index `i` on. */
  function Union(lights: seq<bv32>, i: nat): bv32
    decreases |lights| - i
  {
    if i >= |lights| then 0 else lights[i] | Union(lights, i + 1)
  }

  /** The mask SetLights applies to pick the cabinet lights, the union of
      the cabinet group (see LightGroups). */
  const CAB_MASK: bv32 := 0xF300_0000
  /** The mask SetLights applies to pick the pad lights, the union of the
      pad group (see LightGroups). */
  const PAD_MASK: bv32 := 0x0040_7878


  /** From index `i` on, each light is a single bit that no later light
      shares. */
  predicate DistinctBits(lights: seq<bv32>, i: nat)
    decreases |lights| - i
  {
    i >= |lights| ||
    (&& SingleBit(lights[i])
     && lights[i] & Union(lights, i + 1) == 0
     && DistinctBits(lights, i + 1))
  }

  /** The two groups are made of distinct single bits, they do not overlap,
      the cabinet group lies in the top byte and the pad group leaves bits 7,
      15 and 23 alone. */
  lemma LightGroups()
    ensures DistinctBits(CabinetLights, 0) && |CabinetLights| == 6
    ensures DistinctBits(PadLights, 0) && |PadLights| == 9
    ensures CAB_MASK == Union(CabinetLights, 0)
    ensures PAD_MASK == Union(PadLights, 0)
    ensures CAB_MASK & PAD_MASK == 0
    ensures CAB_MASK & 0x00FF_FFFF == 0
    ensures PAD_MASK & 0x0080_8080 == 0
  {
    assert DistinctBits(CabinetLights, 4);
    assert DistinctBits(CabinetLights, 2);
    assert DistinctBits(PadLights, 7);
    assert DistinctBits(PadLights, 5);
    assert DistinctBits(PadLights, 3);
    assert DistinctBits(PadLights, 1);
  }

  /** The cabinet part of a light mask. */
  function CabinetPart(lights: bv32): (cab: bv32)
    ensures cab & !CAB_MASK == 0 && cab & !lights == 0
  {
    lights & CAB_MASK
  }

  /** The pad part of a light mask. */
  function PadPart(lights: bv32): (pad: bv32)
    ensures pad & !PAD_MASK == 0 && pad & !lights == 0
  {
    lights & PAD_MASK
  }

  /** Splitting keeps every defined light and drops every other bit: the
      two parts are disjoint and together give back the defined lights of
      the mask. */
  lemma SplitKeepsDefinedLights(lights: bv32)
    ensures CabinetPart(lights) & PadPart(lights) == 0
    ensures CabinetPart(lights) | PadPart(lights) == lights & (CAB_MASK | PAD_MASK)
    ensures CabinetPart(lights) & !CAB_MASK == 0 && PadPart(lights) & !PAD_MASK == 0
  {
    LightGroups();
  }

  /** Turning lights on within the defined lights `d`: afterwards every
      defined light of `light` is on and the other lights are as before. */
  lemma MaskOn(x: bv32, light: bv32, d: bv32)
    ensures ((x | light) & d) & light == light & d
    ensures ((x | light) & d) & !light == (x & d) & !light
  {
  }

  /** Turning lights off within the defined lights `d`: afterwards no light
      of `light` is on and the other lights are as before. */
  lemma MaskOff(x: bv32, light: bv32, d: bv32)
    ensures ((x & !light) & d) & light == 0
    ensures (x & !light) & d == (x & d) & !light
  {
  }

  /** Opcode of the P3IO lights command. */
  const LIGHTS_CMD: byte := 0x24

  /** The payload of the lights command for a cabinet light mask: opcode,
      an 0xFF selector, then the mask least significant byte first. */
  function LightsCommand(cab: bv32): (cmd: seq<byte>)
    ensures |cmd| == 6 && cmd[0] == LIGHTS_CMD && cmd[1] == 0xFF
  {
    [LIGHTS_CMD, 0xFF, ByteOf(cab, 0), ByteOf(cab, 1), ByteOf(cab, 2), ByteOf(cab, 3)]
  }

  /** The cabinet mask a lights command carries. */
  function CommandMask(cmd: seq<byte>): bv32
    requires |cmd| == 6
  {
    MaskOfBytes(cmd[2], cmd[3], cmd[4], cmd[5])
  }

  /** The command carries its mask without loss. */
  lemma LightsCommandRoundTrip(cab: bv32)
    ensures CommandMask(LightsCommand(cab)) == cab
  {
    BytesRoundTrip(cab);
  }

  /** For any mask of cabinet lights, bytes 2-4 of the command are zero and
      its top byte is neither 0xAA nor 0xFF, so the 0xFF selector is the one
      byte of the command that is escaped on the wire. */
  lemma LightsCommandStuffing(lights: bv32)
    ensures var cmd := LightsCommand(CabinetPart(lights));
      && cmd[2] == 0 && cmd[3] == 0 && cmd[4] == 0
      && !Reserved(cmd[5])
      && Stuff(cmd) == [LIGHTS_CMD, ESCAPE, 0x00, 0x00, 0x00, 0x00, cmd[5]]
      && CountReserved(cmd) == 1
  {
    var cab := CabinetPart(lights);
    LightGroups();
    CabinetTopByte(cab);
    StuffedCommand(LightsCommand(cab));
  }

  /** Stuffing a command of the lights command's shape escapes its second
      byte only. */
  lemma StuffedCommand(cmd: seq<byte>)
    requires |cmd| == 6 && cmd[0] == LIGHTS_CMD && cmd[1] == 0xFF
    requires cmd[2] == 0 && cmd[3] == 0 && cmd[4] == 0 && !Reserved(cmd[5])
    ensures Stuff(cmd) == [LIGHTS_CMD, ESCAPE, 0x00, 0x00, 0x00, 0x00, cmd[5]]
    ensures CountReserved(cmd) == 1
  {
    assert Stuff(cmd[5..]) == [cmd[5]];
    assert Stuff(cmd[4..]) == [0x00, cmd[5]];
    assert Stuff(cmd[3..]) == [0x00, 0x00, cmd[5]];
    assert Stuff(cmd[2..]) == [0x00, 0x00, 0x00, cmd[5]];
    assert Stuff(cmd[1..]) == [ESCAPE, 0x00, 0x00, 0x00, 0x00, cmd[5]];
  }

  /** The bytes of a mask within the cabinet lights. */
  lemma CabinetTopByte(cab: bv32)
    requires cab & !0xF300_0000 == 0
    ensures ByteOf(cab, 0) == 0 && ByteOf(cab, 1) == 0 && ByteOf(cab, 2) == 0
    ensures ByteOf(cab, 3) != 0xAA && ByteOf(cab, 3) != 0xFF
  {
    assert ((cab >> 24) & 0xFF) as bv8 & !0xF3 == 0;
  }
}
