# DDRMenu IO driver, modelled in Dafny

DDRMenu's `IO` class drives the input/output hardware of a Dance Dance
Revolution cabinet. It does three things:

- It talks to the P3IO board over USB. Commands go out as framed, byte-stuffed
  packets, and the buttons are read with a polling IOCTL.
- It talks to the optional EXTIO light board on COM1, using a four-byte
  checksummed frame.
- It keeps a small state record between calls: the packet counter, the
  buttons held at the last two polls, and the lights last sent to each board.

This project models that class as pure functions. Each operation takes the
state and the device answers it meets, and returns the new state, the writes
it performed in order (a trace of `Event`s), and its result. The properties
the driver relies on are proved about this model.

The modules follow the structure of the driver:

- `Wire`: bytes (`unsigned char`), splitting and assembling 32-bit masks, and
  the I/O trace.
- `Codec`: P3IO byte stuffing. The reserved bytes 0xAA and 0xFF travel as
  0xFF followed by their complement.
- `Transport`: the P3IO exchange. This covers framing, the packet counter, the
  outbound allocation, the 2·inlen+64 byte read buffer, finding the start
  marker, the declared length and unstuffing into the caller's buffer.
- `Commands`: the request payloads of GetVersion, SetMode, GetCabType,
  GetCoinstock and FeedWatchdog, and the reply checks of GetCabType and
  GetCoinstock. The other three commands only log their replies.
- `Lights`: the light definitions and the split of a light mask between the
  cabinet lights (P3IO) and the pad lights (EXTIO).
- `Extio`: the EXTIO frame and exchange.
- `Buttons`: the button definitions and the active-low poll mapping of
  GetButtonsHeld.
- `Edges`: held and newly pressed buttons.
- `Session`: the `IO` object itself. This is the state record, the
  constructor's init sequence, the destructor, SetLights, LightOn, LightOff,
  Tick and the button queries.

Unsigned 32-bit arithmetic is written out explicitly: the counter wraps modulo
2^32, and the declared length wraps on `realLen--`. Masks are `bv32`.

## Model

| member | source | states |
|---|---|---|
| `Wire.BytesRoundTrip` | DDRMenu/IO.cpp:260 | Cutting a 32-bit mask into its four bytes, least significant first, and reassembling them gives the mask back. |
| `Codec.Stuff` | DDRMenu/IO.cpp:352-365 | The wire form of a payload is one byte longer for every reserved byte, and it never contains the start marker 0xAA. |
| `Codec.StuffAppend` | DDRMenu/IO.cpp:352-365 | Stuffing works byte by byte: stuffing a concatenation gives the concatenation of the stuffed parts. |
| `Codec.StuffIdentity` | DDRMenu/IO.cpp:352-365 | A payload goes out unchanged if and only if none of its bytes is 0xAA or 0xFF. |
| `Codec.Unstuff` | DDRMenu/IO.cpp:416-443 | Unstuffing yields at most the requested number of bytes, and it reports completion exactly when it yields all of them. |
| `Codec.UnstuffStuffed` | DDRMenu/IO.cpp:416-443 | Unstuffing any prefix of a stuffed payload gives that prefix back. This holds whatever precedes the payload and whatever follows it, including the unfilled byte past the data. |
| `Codec.StuffRoundTrip` | DDRMenu/IO.cpp:352-442 | Unstuffing a stuffed payload gives the payload back, complete. |
| `Transport.FrameFitsAllocationIff` | DDRMenu/IO.cpp:344-365 | The outbound packet fits the `outlen*2+2` bytes allocated for it if and only if at least one payload byte needs no escape. |
| `Transport.FrameOverrunsAllocation` | DDRMenu/IO.cpp:345-358 | Payload `[0xAA]` builds a 5-byte packet in the 4-byte allocation. |
| `Session.DriverPacketsFit` | DDRMenu/IO.cpp:152-335 | The packets of GetVersion, SetMode, GetCabType, GetCoinstock, FeedWatchdog and the lights command all fit the `outlen*2+2` allocation. |
| `Transport.BuildFrame` | DDRMenu/IO.cpp:345-365 | The driver's stuffing loop builds the header followed by the stuffed payload, and the packet never exceeds `2*outlen+3` bytes. |
| `Transport.Frame` | DDRMenu/IO.cpp:345-365 | A packet is three header bytes plus one byte per payload byte plus one per escaped byte. It starts with 0xAA, and no 0xAA follows the header. |
| `Transport.OpcodeFirstFits` | DDRMenu/IO.cpp:345 | A payload whose first byte needs no escape always fits the `outlen*2+2` allocation. |
| `Transport.StartIndex` | DDRMenu/IO.cpp:384-399 | The index found holds 0xAA and no earlier index does; it is the length of the data when there is no start marker. |
| `Transport.StartIndexUnique` | DDRMenu/IO.cpp:384-399 | An index holding 0xAA with no 0xAA before it is the start index. |
| `Transport.FindStart` | DDRMenu/IO.cpp:382-399 | The driver's scan loop stops at the first start marker. |
| `Transport.PayloadLength` | DDRMenu/IO.cpp:410-414 | The payload length is the declared length minus the sequence byte, and a declared length of 0 wraps to 4294967295. |
| `Transport.ParseReply` | DDRMenu/IO.cpp:380-449 | A read fails with "no start marker" exactly when the data holds no 0xAA. It fails with "no length" exactly when the first 0xAA is the last byte received. A successful read reports the declared length byte minus one, in unsigned arithmetic. It writes at most `inlen` bytes, and a successful read writes `min(inlen, length)` bytes. |
| `Transport.StartMarkerLast` | DDRMenu/IO.cpp:401-407 | A reply whose only start marker is the last byte received has no length byte, and the read returns 0. |
| `Transport.ReplyRunsOut` | DDRMenu/IO.cpp:416-443 | When the data ends before `min(inlen, declared - 1)` logical bytes, the read fails and returns 0. The bytes unstuffed so far are left in the caller's buffer. |
| `Codec.UnstuffRunsOut` | DDRMenu/IO.cpp:416-430 | Asking for more logical bytes than a stuffed payload at the end of the data holds decodes the whole payload and then reports failure. |
| `Transport.UnstuffInto` | DDRMenu/IO.cpp:416-443 | The driver's decoding loop fills the front of the caller's buffer with the unstuffed bytes, leaves the rest untouched, and succeeds exactly when the data does not run out. |
| `Transport.ScanReply` | DDRMenu/IO.cpp:379-449 | The driver's read returns the reply's declared payload length, or 0 on failure, and leaves the written bytes in the caller's buffer. |
| `Transport.ParseFramedReply` | DDRMenu/IO.cpp:384-449 | A reply framed like an outbound packet, with a payload shorter than 255 bytes, is read back exactly. At 255 bytes the length byte wraps to 0. This holds after any noise without 0xAA, with any sequence nibble, and with anything after it. |
| `Transport.NoiseIgnored` | DDRMenu/IO.cpp:384-399 | Bytes without 0xAA in front of a reply do not change how it is read. |
| `Transport.SequenceEchoIgnored` | DDRMenu/IO.cpp:412-413 | The reply's sequence byte is never checked: changing it changes nothing. |
| `Transport.DeclaredZeroWraps` | DDRMenu/IO.cpp:410-414 | The reply `AA 00 00 27 01`, read into 2 bytes, is accepted and reports 4294967295 bytes. |
| `Transport.ParseReplyCorrected` | DDRMenu/IO.cpp:410-414 | With declared length 0 treated as malformed, a read never reports more than 254 bytes. A successful read's length agrees with the declared length byte. |
| `Transport.CorrectedParseAgrees` | DDRMenu/IO.cpp:410-449 | The corrected read returns what the driver's read returns, except that 4294967295 becomes 0. |
| `Transport.Received` | DDRMenu/IO.cpp:380-381 | One read delivers a prefix of the device's answer of at most `2*inlen+64` bytes, and all of the answer when it fits. |
| `Transport.ExchangeP3IO` | DDRMenu/IO.cpp:337-450 | When not ready, the exchange does nothing and returns 0. Otherwise it writes one packet and the counter advances even on failure. A nonzero result needs a full write and a start marker in the data read. |
| `Transport.ExchangeRoundTrip` | DDRMenu/IO.cpp:337-450 | When the device takes the whole packet and answers with a framed reply whose leading noise and frame fit the read buffer, the exchange returns the reply's length and its first `inlen` bytes, whatever bytes follow the frame. The rest of the caller's buffer is unchanged. |
| `Commands.WatchdogRequest` | DDRMenu/IO.cpp:215-220 | The feed time of 180 seconds fits the command's byte: the payload is `05 B4`. |
| `Commands.WatchdogUnstuffed` | DDRMenu/IO.cpp:218-220 | The watchdog payload needs no escape, so its packet is `AA 03 n 05 B4`. |
| `Commands.CabTypeRequest` | DDRMenu/IO.cpp:190-192 | The cabinet type request is two bytes, opcode 0x27 first, which never needs an escape. An argument below 256, such as the 0 and 1 the constructor passes, goes out unchanged; a larger one loses its high bits. |
| `Commands.CabinetTypesAnswered` | DDRMenu/IO.h:34-37 | A board answering with the SD code 1 or the HD code 2 makes GetCabType report that cabinet type, whatever bytes follow the reply. |
| `Commands.CabTypeOf` | DDRMenu/IO.cpp:196-212 | A nonzero cabinet type comes only from a 2-byte reply that echoes 0x27, and such a reply yields its second byte. |
| `Commands.Counter` | DDRMenu/IO.cpp:303-304 | A big-endian coin counter is below 65536. |
| `Commands.CoinstockOf` | DDRMenu/IO.cpp:297-334 | Nonzero counters come only from a 6-byte reply that echoes 0x31 and has a zero second byte. Each counter is below 65536. |
| `Commands.CoinstockRoundTrip` | DDRMenu/IO.cpp:299-305 | Counters encoded in a coinstock reply are read back unchanged. |
| `Commands.CabTypeAnswered` | DDRMenu/IO.cpp:190-213 | When the board answers `[0x27, t]`, GetCabType reports `t`, whatever bytes follow the reply. |
| `Commands.CoinstockAnswered` | DDRMenu/IO.cpp:290-335 | When the board answers with its counters, GetCoinstock reports them, whatever bytes follow the reply. |
| `Commands.WrapInvisibleToCommands` | DDRMenu/IO.cpp:196-297 | GetCabType and GetCoinstock report the same with the driver's read as with the corrected one, because they demand an exact reply length. |
| `Commands.CorrectedAgreesOff` | DDRMenu/IO.cpp:410-449 | The two reads differ only in turning 4294967295 into 0. When the driver's read succeeds with a real length, both leave the same bytes. |
| `Lights.LightGroups` | DDRMenu/IO.cpp:237-255 | The cabinet and pad groups are distinct single bits and do not overlap. The cabinet group lies in the top byte, and the pad group leaves bits 7, 15 and 23 free. |
| `Lights.SplitKeepsDefinedLights` | DDRMenu/IO.cpp:237-255 | The two parts of a light mask are disjoint, stay within their groups, and together give back every defined light of the mask. |
| `Lights.CabinetPart` | DDRMenu/IO.cpp:237-244 | The cabinet part keeps only lights that are in the mask and belong to the cabinet group. |
| `Lights.PadPart` | DDRMenu/IO.cpp:245-255 | The pad part keeps only lights that are in the mask and belong to the pad group. |
| `Lights.LightsCommand` | DDRMenu/IO.cpp:260 | The lights command starts with opcode 0x24 and the 0xFF selector and has six bytes. |
| `Lights.LightsCommandRoundTrip` | DDRMenu/IO.cpp:260 | The lights command carries the cabinet mask without loss. |
| `Lights.LightsCommandStuffing` | DDRMenu/IO.cpp:260-262 | For cabinet lights, the 0xFF selector is the one escaped byte of the command, and its packet payload is `24 FF 00 00 00 00 hi`. |
| `Extio.Checksum` | DDRMenu/IO.cpp:462 | The EXTIO checksum has seven bits. |
| `Extio.ExtioFrameRoundTrip` | DDRMenu/IO.cpp:461-462 | Every EXTIO frame has the sync bit and a matching checksum, and carries bits 0-6 and 8-23 of the mask. |
| `Extio.ExtioFrame` | DDRMenu/IO.cpp:460-462 | An EXTIO frame has four bytes. The first carries the sync bit and the checksum byte never does. |
| `Extio.ExtioFrameExample` | DDRMenu/IO.cpp:461-462 | The mask 0x010203 goes out as `83 02 01 06`. |
| `Extio.PadLightsFrame` | DDRMenu/IO.cpp:461-462 | A pad-light mask travels whole, and only the first frame byte has bit 7 set. |
| `Extio.ExchangeEXTIO` | DDRMenu/IO.cpp:452-488 | A frame is written exactly when the driver is ready and the port is open. Success requires a 4-byte write and the answer 0x11. |
| `Buttons.ButtonConstants` | DDRMenu/IO.h:7-32 | The poll mapping has 21 entries, one per button, each a single bit that no other entry shares. Their union is the OR of the 21 button constants, 0x73FFFF, which lies below bit 23. |
| `Buttons.DistinctButtons` | DDRMenu/IO.cpp:526-620 | No two entries of the poll mapping set a common button bit. |
| `Buttons.WiringMaskExact` | DDRMenu/IO.cpp:526-620 | Each button is reported exactly when its wire's bit is set; no other wire affects it. |
| `Buttons.SampleWithinButtons` | DDRMenu/IO.cpp:516-622 | The sampler reports only defined buttons. |
| `Buttons.PollButtons` | DDRMenu/IO.cpp:499-622 | A failed poll, or one that does not return 12 bytes, reports nothing. Every poll reports only defined buttons. |
| `Buttons.SampleFollowsWiring` | DDRMenu/IO.cpp:515-622 | A 12-byte poll reports a button exactly when its wire's bit is low in bytes 1-4, whatever the other bytes hold. |
| `Buttons.AllReleased` | DDRMenu/IO.cpp:519-622 | A poll of all 0xFF reports no button. |
| `Buttons.AllAsserted` | DDRMenu/IO.cpp:519-622 | A poll of all 0x00 reports every button. |
| `Buttons.OnlyFirstPlayerUp` | DDRMenu/IO.cpp:527-530 | Pulling bit 1 of poll byte 1 low reports exactly 1P up. |
| `Edges.PressedWithin` | DDRMenu/IO.cpp:637-641 | A pressed button is held now and was not held at the poll before. |
| `Edges.PressedIff` | DDRMenu/IO.cpp:643-647 | A single button is pressed exactly when it is held now and was not held at the poll before. |
| `Edges.PressedAny` | DDRMenu/IO.cpp:643-659 | A pressed button mask is a held one. |
| `Session.GetVersion` | DDRMenu/IO.cpp:152-169 | The version query writes its packet and advances the counter when ready, and nothing else changes. |
| `Session.SetMode` | DDRMenu/IO.cpp:171-188 | The mode command writes its packet and advances the counter when ready, and nothing else changes. |
| `Session.GetCabType` | DDRMenu/IO.cpp:190-213 | The cabinet type query writes its packet when ready and changes only the counter. It reports unknown when not ready. |
| `Session.GetCoinstock` | DDRMenu/IO.cpp:290-335 | The coinstock query writes its packet when ready and changes only the counter. It reports zero counters when not ready. |
| `Session.FeedWatchdog` | DDRMenu/IO.cpp:215-232 | The watchdog feed writes `05 B4` when ready and changes only the counter. |
| `Session.SendCabinet` | DDRMenu/IO.cpp:257-277 | The lights command goes out only when ready and the cabinet lights changed. They are remembered either way. |
| `Session.SendPad` | DDRMenu/IO.cpp:279-284 | The EXTIO frame goes out only when ready, the port is open and the pad lights changed. They are remembered either way. |
| `Session.SetLights` | DDRMenu/IO.cpp:234-288 | SetLights remembers both parts of the mask, even when not ready, and changes only those and the counter. When ready it always ends with a watchdog feed. |
| `Session.SetLightsEvents` | DDRMenu/IO.cpp:234-288 | On a ready driver the writes are, in order: the lights command if the cabinet lights changed, the EXTIO frame if the pad lights changed and the port is open, then the watchdog feed. The counter advances by one per packet. |
| `Session.SetLightsDiffs` | DDRMenu/IO.cpp:257-287 | One lights command goes out if and only if the cabinet part changed. One EXTIO frame goes out if and only if the port is open and the pad part changed. Exactly one watchdog feed goes out, and it is the last write. |
| `Session.SetLightsTwice` | DDRMenu/IO.cpp:258-287 | Setting the same lights again only feeds the watchdog. |
| `Session.SetLightsRemembers` | DDRMenu/IO.cpp:276-283 | After SetLights, the lights on are exactly the defined lights of the mask given. |
| `Session.LightOn` | DDRMenu/IO.cpp:661-664 | LightOn remembers exactly the defined lights among those on before and the argument. It changes nothing but the remembered lights and the counter. |
| `Session.LightOff` | DDRMenu/IO.cpp:666-669 | LightOff remembers exactly the defined lights that were on before and are not in the argument. It changes nothing but the remembered lights and the counter. |
| `Session.LightOnTurnsOn` | DDRMenu/IO.cpp:661-664 | After LightOn every defined light of the argument is on, and every other light is on exactly when it was on and defined before. This holds in every state. |
| `Session.LightOffTurnsOff` | DDRMenu/IO.cpp:666-669 | After LightOff no light of the argument is on, and every other light is on exactly when it was on and defined before. This holds in every state. |
| `Session.LightOnAdds` | DDRMenu/IO.cpp:661-664 | LightOn adds the defined lights of its argument to those on, and no other light changes. |
| `Session.LightOffRemoves` | DDRMenu/IO.cpp:666-669 | LightOff removes its argument's lights from those on, and no other light changes. |
| `Session.ConstructSetsReady` | DDRMenu/IO.cpp:11-124 | After construction, Ready is true exactly when the P3IO was found and opened. |
| `Session.DestroyClearsReady` | DDRMenu/IO.cpp:126-145 | After the destructor, Ready is false. |
| `Session.ReadyPersists` | DDRMenu/IO.cpp:147-150 | Only the constructor and the destructor change what Ready reports. Ticks, light updates and commands leave it as it was. |
| `Session.Tick` | DDRMenu/IO.cpp:625-635 | After a tick of a ready driver, the buttons held are the poll's, and the buttons pressed are those of the poll not held before the tick; it performs one poll. Readiness, the counter, the EXTIO port and the remembered lights never change. A driver that is not ready does nothing. |
| `Session.ButtonsPressed` | DDRMenu/IO.cpp:637-641 | The pressed buttons are held now and were not held at the poll before. |
| `Session.ButtonPressed` | DDRMenu/IO.cpp:643-647 | A single button is reported pressed exactly when it is held now and was not held at the poll before. |
| `Session.ButtonsHeld` | DDRMenu/IO.cpp:649-653 | Every pressed button is among the held buttons. |
| `Session.ButtonHeld` | DDRMenu/IO.cpp:655-659 | A pressed button mask is also a held one. |
| `Session.PressedWithinHeld` | DDRMenu/IO.cpp:637-659 | Only held buttons are pressed, never one held at the previous poll. |
| `Session.TickPressed` | DDRMenu/IO.cpp:625-647 | After a tick, a button is pressed exactly when the poll reports it and the poll before did not; for a single button, exactly when the poll holds it and the previous poll did not. |
| `Session.TickHeld` | DDRMenu/IO.cpp:625-659 | After a tick, a button is held exactly when the poll reports it. |
| `Session.PressedOnlyOnce` | DDRMenu/IO.cpp:625-641 | A button held through two ticks is pressed after the first only: the second reports as pressed exactly its poll minus the first poll. |
| `Session.Construct` | DDRMenu/IO.cpp:11-124 | Without a P3IO the driver is not ready and performs no I/O. With one it is ready, and its EXTIO port is open exactly when COM1 opened. |
| `Session.InitQueries` | DDRMenu/IO.cpp:116-121 | The first five init commands write packets 0-4, in order: version, mode, cabinet type 1, coinstock, cabinet type 0. |
| `Session.InitLights` | DDRMenu/IO.cpp:122-123 | Turning all lights off from the all-on remembered state sends the lights command, the EXTIO frame when the port is open, and two watchdog feeds. |
| `Session.InitSequence` | DDRMenu/IO.cpp:108-123 | Construction writes packets 0-7 in source order, with the all-off EXTIO frame after the lights command when the port is open. It ends ready with counter 8, all lights remembered off and no button held. |
| `Session.Destroy` | DDRMenu/IO.cpp:126-145 | The destructor does nothing when not ready, and always leaves the driver not ready. |
| `Session.ShutdownOrder` | DDRMenu/IO.cpp:126-145 | The destructor writes, in order: the all-off lights command if any cabinet light was on, the lights watchdog feed, then the final feed. It sends no EXTIO frame, because the port is closed first, and it remembers all lights off. |

## Left out

- Device discovery (IO.cpp:17-67) is not modelled. The SetupDi calls and the building of the device path are reduced to one flag: whether the P3IO was opened.
- COM1 set-up (IO.cpp:71-106) is not modelled. The baud rate, the timeouts and the purge are reduced to one flag: whether COM1 opened.
- Logging through `fprintf` is not modelled. GetVersion, SetMode and FeedWatchdog only log their replies, so their results are `()`.
- `FlushFileBuffers`, `malloc` and `free` are not modelled. Memory appears only as the two allocation sizes (IO.cpp:345, 380).
- The device's answers are inputs, not behaviour: the byte count WriteFile reports, the bytes ReadFile delivers, and the byte past the data read (`beyond`).
- `CloseHandle(p3io)` and handle lifetimes are left out. The destructor is modelled only by the order of its calls and by the EXTIO port becoming closed.
- A write on the closed EXTIO handle is modelled as failing before any byte reaches the line.
- The fields of a driver that never became ready are never set by the source. `Session.Construct` keeps them as whatever its `leftover` argument holds. Nothing is claimed about ButtonsHeld or ButtonsPressed in that state.
- GetButtonsHeld's own `is_ready` check (IO.cpp:494-497) is not modelled. Its only caller, Tick, returns first when not ready.
- The poll IOCTL's 16-byte output limit is not modelled: a reply of any length other than 12 reports nothing.
- Display.cpp and DDRMenu.cpp, which use this class, are not part of this model.
- Commands.CabTypeAnswered: proved only when at most 62 bytes of noise precede the reply, so that noise and the 6-byte frame fit one 68-byte read. Bytes after the frame are cut off by the read and do not matter.
- Commands.CabinetTypesAnswered: the same 62-byte bound on the noise before the reply, for the same reason.
- Commands.CoinstockAnswered: proved only when at most 63 bytes of noise precede the reply, so that noise and the 13-byte frame fit one 76-byte read. Bytes after the frame do not matter.
- Transport.ExchangeRoundTrip: proved only when the noise and the reply frame fit the `2*inlen+64`-byte read buffer (bytes after the frame are cut off and do not matter), and only for answers shorter than 255 bytes, whose declared length does not wrap.
- Session.LightOnAdds: proved only for a state whose remembered lights lie within their groups. This holds after any SetLights, so after construction, but not before the first one, when all 32 bits are remembered on. `Session.LightOnTurnsOn` states the effect for every state.
- Session.LightOffRemoves: proved only for a state whose remembered lights lie within their groups, the same condition as LightOnAdds. `Session.LightOffTurnsOff` states the effect for every state.
- Session.TickPressed: proved for a ready driver only. A tick of a driver that is not ready changes nothing, which `Session.Tick` states.
- Session.TickHeld: proved for a ready driver only, as for TickPressed.

## Findings

| source | as written | input that shows it | evidently intended | confidence | as-written member | corrected member |
|---|---|---|---|---|---|---|
| DDRMenu/IO.cpp:345 | The outbound buffer gets `outlen*2+2` bytes, but the packet needs three header bytes plus two bytes per escaped payload byte. The overrun is latent: every payload the driver itself sends starts with an opcode that needs no escape. | The one-byte payload `[0xAA]` builds `AA 02 00 FF 55`, 5 bytes in a 4-byte buffer. Every payload made only of 0xAA and 0xFF bytes overruns. | Allocate `outlen*2+3` bytes, enough for every payload byte escaped. | not executed | `Transport.FrameOverrunsAllocation` | `Transport.BuildFrame` |
| DDRMenu/IO.cpp:410-414 | `realLen--` on an `unsigned int` wraps when the declared length is 0. The wrapped length is returned without a clamp. | The reply `AA 00 00 27 01`, read into a 2-byte buffer, fills both bytes and returns 4294967295. | Treat a declared length of 0 as malformed, so that no read reports more than 254 bytes. | not executed | `Transport.DeclaredZeroWraps` | `Transport.ParseReplyCorrected` |

The corrected allocation is `Transport.FrameCapacity`. `Transport.BuildFrame` proves that every packet fits it. `Transport.FrameFitsAllocationIff` characterises the payloads that overrun the allocation as written. `Session.DriverPacketsFit` proves that none of the driver's own payloads (the 0x01, 0x2F, 0x27, 0x31, 0x05 and 0x24 commands) overruns it, so an overrun needs a caller that passes a payload made only of 0xAA and 0xFF bytes.

`Transport.ExchangeP3IO` keeps the driver's read. `Commands.WrapInvisibleToCommands` proves that GetCabType and GetCoinstock report the same with either read, so every command result of the session model is also the result of the corrected read. `Transport.CorrectedParseAgrees` and `Commands.CorrectedAgreesOff` state the only difference.
