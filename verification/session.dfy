/** The driver object itself (IO.cpp, class IO): its state record, the
    construction sequence, the destructor, the light updates and the button
    queries. Every operation is a function from the state, and the device
    answers it meets, to the new state and the I/O it performed. */
module Session {
  import opened Wire
  import opened Codec
  import opened Transport
  import opened Buttons
  import opened Lights
  import opened Extio
  import opened Commands
  import opened Edges

  /** The fields of an `IO` object. */
  datatype IOState = IOState(
    ready: bool,           // is_ready
    extio: Handle,         // the EXTIO serial port
    sequence: nat,         // packet counter, an unsigned int
    buttons: bv32,         // buttons held at the last poll
    lastButtons: bv32,     // buttons held at the poll before
    lastCabLights: bv32,   // cabinet lights last sent
    lastPadLights: bv32)   // pad lights last sent

  /** The state after an operation, the I/O it performed in order, and what
      it returned. */
  datatype Step<T> = Step(io: IOState, events: seq<Event>, value: T)

  /** One P3IO exchange from state `io` with a zero-filled reply buffer of
      `inlen` bytes. Only the packet counter of the state changes. */
  function Talk(io: IOState, payload: seq<byte>, inlen: nat, link: P3IOLink): (s: Step<Exchange>)
    ensures s.io == io.(sequence := s.value.sequence)
    ensures s.events == s.value.events
    ensures |s.value.inbuf| == inlen
    ensures s.io.sequence == if io.ready then NextSequence(io.sequence) else io.sequence
  {
    var x := Call(io.ready, io.sequence, payload, inlen, link);
    Step(io.(sequence := x.sequence), x.events, x)
  }

  /** The packet a ready driver writes for `payload` at counter `sequence`. */
  function Packet(sequence: nat, payload: seq<byte>): Event
  {
    P3IOWrite(Frame(sequence, payload))
  }

  /** Requests the firmware version; the answer is only logged. */
  function GetVersion(io: IOState, link: P3IOLink): (s: Step<()>)
    ensures s.io == io.(sequence := s.io.sequence)
    ensures s.io.sequence == if io.ready then NextSequence(io.sequence) else io.sequence
    ensures s.events == if io.ready then [Packet(io.sequence, VersionRequest)] else []
  {
    var t := Talk(io, VersionRequest, VERSION_REPLY, link);
    Step(t.io, t.events, ())
  }

  /** Sets the board's operating mode; the answer is only logged. */
  function SetMode(io: IOState, link: P3IOLink): (s: Step<()>)
    ensures s.io == io.(sequence := s.io.sequence)
    ensures s.io.sequence == if io.ready then NextSequence(io.sequence) else io.sequence
    ensures s.events == if io.ready then [Packet(io.sequence, ModeRequest)] else []
  {
    var t := Talk(io, ModeRequest, MODE_REPLY, link);
    Step(t.io, t.events, ())
  }

  /** Asks for the cabinet type; 0 (unknown) on any failure. */
  function GetCabType(io: IOState, request: nat, link: P3IOLink): (s: Step<nat>)
    ensures s.io == io.(sequence := s.io.sequence)
    ensures s.io.sequence == if io.ready then NextSequence(io.sequence) else io.sequence
    ensures s.events == if io.ready then [Packet(io.sequence, CabTypeRequest(request))] else []
    ensures !io.ready ==> s.value == CABINET_UNKNOWN
  {
    var t := Talk(io, CabTypeRequest(request), CABTYPE_REPLY, link);
    Step(t.io, t.events, CabTypeOf(t.value.actual, t.value.inbuf))
  }

  /** Reads the coin counters; both 0 on any failure. */
  function GetCoinstock(io: IOState, link: P3IOLink): (s: Step<CoinCount>)
    ensures s.io == io.(sequence := s.io.sequence)
    ensures s.io.sequence == if io.ready then NextSequence(io.sequence) else io.sequence
    ensures s.events == if io.ready then [Packet(io.sequence, CoinstockRequest)] else []
    ensures !io.ready ==> s.value == CoinCount(0, 0)
  {
    var t := Talk(io, CoinstockRequest, COINSTOCK_REPLY, link);
    Step(t.io, t.events, CoinstockOf(t.value.actual, t.value.inbuf))
  }

  /** Resets the watchdog to WATCHDOG_FEED_S seconds; the answer is only
      logged. */
  function FeedWatchdog(io: IOState, link: P3IOLink): (s: Step<()>)
    ensures s.io == io.(sequence := s.io.sequence)
    ensures s.events == if io.ready then [Packet(io.sequence, WatchdogRequest())] else []
    ensures s.io.sequence == if io.ready then NextSequence(io.sequence) else io.sequence
  {
    var t := Talk(io, WatchdogRequest(), WATCHDOG_REPLY, link);
    Step(t.io, t.events, ())
  }

  /** The answers a SetLights call meets: the lights command, the EXTIO
      frame and the watchdog feed. */
  datatype LightsLinks = LightsLinks(cab: P3IOLink, pad: ExtioLink, watchdog: P3IOLink)

  /** The cabinet half of SetLights: the lights command goes out only when
      the cabinet lights differ from those last sent, and they are
      remembered either way. */
  function SendCabinet(io: IOState, cab: bv32, link: P3IOLink): (s: Step<()>)
    ensures s.io == io.(sequence := s.io.sequence, lastCabLights := cab)
    ensures s.events == if io.ready && io.lastCabLights != cab then [Packet(io.sequence, LightsCommand(cab))] else []
    ensures s.io.sequence == if io.ready && io.lastCabLights != cab then NextSequence(io.sequence) else io.sequence
  {
    if io.lastCabLights != cab then
      var t := Talk(io, LightsCommand(cab), LIGHTS_REPLY, link);
      Step(t.io.(lastCabLights := cab), t.events, ())
    else Step(io.(lastCabLights := cab), [], ())
  }

  /** The pad half of SetLights: the EXTIO frame goes out only when the pad
      lights differ from those last sent, and they are remembered either
      way. */
  function SendPad(io: IOState, pad: bv32, link: ExtioLink): (s: Step<()>)
    ensures s.io == io.(lastPadLights := pad)
    ensures s.events == if io.ready && io.extio.Open? && io.lastPadLights != pad then [ExtioWrite(ExtioFrame(pad))] else []
  {
    var sent := if io.lastPadLights != pad then ExchangeEXTIO(io.ready, io.extio, pad, link).events else [];
    Step(io.(lastPadLights := pad), sent, ())
  }

  /** Sets the lights: the cabinet half, the pad half, then the watchdog
      feed. The remembered lights are updated whatever the exchanges report,
      and even when the driver is not ready. */
  function SetLights(io: IOState, lights: bv32, links: LightsLinks): (s: Step<()>)
    ensures s.io == io.(sequence := s.io.sequence,
                        lastCabLights := CabinetPart(lights), lastPadLights := PadPart(lights))
    ensures !io.ready ==> s.events == [] && s.io.sequence == io.sequence
    ensures io.ready ==> |s.events| > 0 && Carries(s.events[|s.events| - 1], WATCHDOG_CMD)
  {
    var c := SendCabinet(io, CabinetPart(lights), links.cab);
    var p := SendPad(c.io, PadPart(lights), links.pad);
    var fed := FeedWatchdog(p.io, links.watchdog);
    WatchdogCarries(p.io.sequence);
    Step(fed.io, c.events + p.events + fed.events, ())
  }

  /** Whether an event is a P3IO packet whose command byte is `cmd`. */
  predicate Carries(e: Event, cmd: byte)
  {
    e.P3IOWrite? && |e.frame| > 3 && e.frame[3] == cmd
  }

  lemma WatchdogCarries(sequence: nat)
    ensures Carries(Packet(sequence, WatchdogRequest()), WATCHDOG_CMD)
  {
    WatchdogUnstuffed(sequence);
  }

  /** The packet counter after `n` exchanges. */
  function Advance(sequence: nat, n: nat): nat
  {
    (sequence + n) % 0x1_0000_0000
  }

  /** One and two exchanges advance the counter by one and two. */
  lemma AdvanceSteps(sequence: nat)
    ensures Advance(sequence, 1) == NextSequence(sequence)
    ensures Advance(sequence, 2) == NextSequence(NextSequence(sequence))
  {
  }

  /** The I/O of SetLights on a ready driver, in order: the lights command
      if the cabinet lights changed, the EXTIO frame if the pad lights
      changed and the port is open, and the watchdog feed. */
  lemma SetLightsEvents(io: IOState, lights: bv32, links: LightsLinks)
    requires io.ready
    ensures var cabChanged := io.lastCabLights != CabinetPart(lights);
            var s := SetLights(io, lights, links);
            && s.events
               == (if cabChanged then [Packet(io.sequence, LightsCommand(CabinetPart(lights)))] else [])
                + (if io.extio.Open? && io.lastPadLights != PadPart(lights) then [ExtioWrite(ExtioFrame(PadPart(lights)))] else [])
                + [Packet(if cabChanged then NextSequence(io.sequence) else io.sequence, WatchdogRequest())]
            && s.io.sequence == Advance(io.sequence, if cabChanged then 2 else 1)
  {
    var cab := CabinetPart(lights);
    var pad := PadPart(lights);
    var c := SendCabinet(io, cab, links.cab);
    var p := SendPad(c.io, pad, links.pad);
    var fed := FeedWatchdog(p.io, links.watchdog);
    var cabChanged := io.lastCabLights != cab;
    assert SetLights(io, lights, links).events == c.events + p.events + fed.events;
    assert SetLights(io, lights, links).io.sequence == fed.io.sequence;
    assert c.io.ready && c.io.extio == io.extio && c.io.lastPadLights == io.lastPadLights;
    assert c.events == if cabChanged then [Packet(io.sequence, LightsCommand(cab))] else [];
    assert p.events == if io.extio.Open? && io.lastPadLights != pad then [ExtioWrite(ExtioFrame(pad))] else [];
    assert p.io.sequence == c.io.sequence == if cabChanged then NextSequence(io.sequence) else io.sequence;
    assert fed.events == [Packet(c.io.sequence, WatchdogRequest())];
    AdvanceSteps(io.sequence);
  }

  /** How many events of a trace are P3IO packets of command `cmd`. */
  function CountCarrying(events: seq<Event>, cmd: byte): (n: nat)
    ensures n <= |events|
  {
    if events == [] then 0
    else (if Carries(events[0], cmd) then 1 else 0) + CountCarrying(events[1..], cmd)
  }

  /** How many events of a trace are EXTIO frames. */
  function CountExtio(events: seq<Event>): (n: nat)
    ensures n <= |events|
  {
    if events == [] then 0
    else (if events[0].ExtioWrite? then 1 else 0) + CountExtio(events[1..])
  }

  lemma {:induction false} CountAppend(a: seq<Event>, b: seq<Event>, cmd: byte)
    ensures CountCarrying(a + b, cmd) == CountCarrying(a, cmd) + CountCarrying(b, cmd)
    ensures CountExtio(a + b) == CountExtio(a) + CountExtio(b)
    decreases |a|
  {
    if a == [] {
      assert a + b == b;
    } else {
      assert (a + b)[0] == a[0];
      assert (a + b)[1..] == a[1..] + b;
      CountAppend(a[1..], b, cmd);
    }
  }

  /** A packet is recognised by its first payload byte when that byte is
      not escaped. */
  lemma PacketCarries(sequence: nat, payload: seq<byte>)
    requires |payload| > 0 && !Reserved(payload[0])
    ensures Carries(Packet(sequence, payload), payload[0])
    ensures forall cmd :: Carries(Packet(sequence, payload), cmd) ==> cmd == payload[0]
  {
    assert Stuff(payload) == StuffByte(payload[0]) + Stuff(payload[1..]);
  }

  /** The counts of a trace made of an optional lights packet, an optional
      EXTIO frame and a watchdog packet. */
  lemma DiffCounts(l: Event, x: Event, w: Event, cabChanged: bool, padSent: bool)
    requires Carries(l, LIGHTS_CMD) && !Carries(l, WATCHDOG_CMD) && l.P3IOWrite?
    requires Carries(w, WATCHDOG_CMD) && !Carries(w, LIGHTS_CMD) && w.P3IOWrite?
    requires x.ExtioWrite?
    ensures var ev := (if cabChanged then [l] else []) + (if padSent then [x] else []) + [w];
            && CountCarrying(ev, LIGHTS_CMD) == (if cabChanged then 1 else 0)
            && CountCarrying(ev, WATCHDOG_CMD) == 1
            && CountExtio(ev) == (if padSent then 1 else 0)
  {
    var c := if cabChanged then [l] else [];
    var p := if padSent then [x] else [];
    CountAppend(c, p, LIGHTS_CMD);
    CountAppend(c + p, [w], LIGHTS_CMD);
    CountAppend(c, p, WATCHDOG_CMD);
    CountAppend(c + p, [w], WATCHDOG_CMD);
  }

  /** Light diffing: on a ready driver SetLights sends the lights command
      exactly when the cabinet lights changed, an EXTIO frame exactly when
      the pad lights changed and the port is open, and feeds the watchdog
      exactly once, as the last thing it does. */
  lemma SetLightsDiffs(io: IOState, lights: bv32, links: LightsLinks)
    requires io.ready
    ensures var s := SetLights(io, lights, links);
            && CountCarrying(s.events, LIGHTS_CMD) == (if io.lastCabLights != CabinetPart(lights) then 1 else 0)
            && CountExtio(s.events) == (if io.extio.Open? && io.lastPadLights != PadPart(lights) then 1 else 0)
            && CountCarrying(s.events, WATCHDOG_CMD) == 1
            && Carries(s.events[|s.events| - 1], WATCHDOG_CMD)
  {
    var cab := CabinetPart(lights);
    var pad := PadPart(lights);
    var cabChanged := io.lastCabLights != cab;
    var seq1 := if cabChanged then NextSequence(io.sequence) else io.sequence;
    var l := Packet(io.sequence, LightsCommand(cab));
    var x := ExtioWrite(ExtioFrame(pad));
    var w := Packet(seq1, WatchdogRequest());
    SetLightsEvents(io, lights, links);
    PacketCarries(io.sequence, LightsCommand(cab));
    PacketCarries(seq1, WatchdogRequest());
    DiffCounts(l, x, w, cabChanged, io.extio.Open? && io.lastPadLights != pad);
  }

  /** Setting the same lights twice: the second call only feeds the
      watchdog. */
  lemma SetLightsTwice(io: IOState, lights: bv32, first: LightsLinks, second: LightsLinks)
    requires io.ready
    ensures var s := SetLights(SetLights(io, lights, first).io, lights, second);
            s.events == [Packet(SetLights(io, lights, first).io.sequence, WatchdogRequest())]
  {
    SetLightsEvents(SetLights(io, lights, first).io, lights, second);
  }

  /** The remembered lights lie within their groups. This holds after any
      SetLights; before the first one the driver remembers all bits set. */
  predicate LightsKnown(io: IOState)
  {
    io.lastCabLights & !CAB_MASK == 0 && io.lastPadLights & !PAD_MASK == 0
  }

  /** The lights currently on, as the driver remembers them. */
  function LightsOn(io: IOState): bv32
  {
    io.lastCabLights | io.lastPadLights
  }

  /** SetLights leaves the lights it was given, restricted to the defined
      ones, as the lights on. */
  lemma SetLightsRemembers(io: IOState, lights: bv32, links: LightsLinks)
    ensures LightsKnown(SetLights(io, lights, links).io)
    ensures LightsOn(SetLights(io, lights, links).io) == lights & (CAB_MASK | PAD_MASK)
  {
    var s := SetLights(io, lights, links);
    assert s.io.lastCabLights == CabinetPart(lights) && s.io.lastPadLights == PadPart(lights);
    SplitKeepsDefinedLights(lights);
  }

  /** Turns the lights of `light` on, keeping the others. */
  function LightOn(io: IOState, light: bv32, links: LightsLinks): (s: Step<()>)
    ensures s.io == io.(sequence := s.io.sequence,
                        lastCabLights := s.io.lastCabLights, lastPadLights := s.io.lastPadLights)
    ensures LightsOn(s.io) == (LightsOn(io) | light) & (CAB_MASK | PAD_MASK)
  {
    SetLightsRemembers(io, LightsOn(io) | light, links);
    SetLights(io, LightsOn(io) | light, links)
  }

  /** Turns the lights of `light` off, keeping the others. */
  function LightOff(io: IOState, light: bv32, links: LightsLinks): (s: Step<()>)
    ensures s.io == io.(sequence := s.io.sequence,
                        lastCabLights := s.io.lastCabLights, lastPadLights := s.io.lastPadLights)
    ensures LightsOn(s.io) == (LightsOn(io) & !light) & (CAB_MASK | PAD_MASK)
  {
    SetLightsRemembers(io, LightsOn(io) & !light, links);
    SetLights(io, LightsOn(io) & !light, links)
  }

  /** After LightOn every defined light of `light` is on, and every other
      light is on exactly when it was on and defined before. */
  lemma LightOnTurnsOn(io: IOState, light: bv32, links: LightsLinks)
    ensures LightsOn(LightOn(io, light, links).io) & light == light & (CAB_MASK | PAD_MASK)
    ensures LightsOn(LightOn(io, light, links).io) & !light == (LightsOn(io) & (CAB_MASK | PAD_MASK)) & !light
  {
    OnAfter(LightOn(io, light, links).io, LightsOn(io), light);
  }

  /** After LightOff no light of `light` is on, and every other light is on
      exactly when it was on and defined before. */
  lemma LightOffTurnsOff(io: IOState, light: bv32, links: LightsLinks)
    ensures LightsOn(LightOff(io, light, links).io) & light == 0
    ensures LightsOn(LightOff(io, light, links).io) == (LightsOn(io) & (CAB_MASK | PAD_MASK)) & !light
  {
    OffAfter(LightOff(io, light, links).io, LightsOn(io), light);
  }

  /** The lights on after remembering `(on | light)`. */
  lemma OnAfter(after: IOState, on: bv32, light: bv32)
    requires LightsOn(after) == (on | light) & (CAB_MASK | PAD_MASK)
    ensures LightsOn(after) & light == light & (CAB_MASK | PAD_MASK)
    ensures LightsOn(after) & !light == (on & (CAB_MASK | PAD_MASK)) & !light
  {
    MaskOn(on, light, CAB_MASK | PAD_MASK);
  }

  /** The lights on after remembering `(on & ~light)`. */
  lemma OffAfter(after: IOState, on: bv32, light: bv32)
    requires LightsOn(after) == (on & !light) & (CAB_MASK | PAD_MASK)
    ensures LightsOn(after) & light == 0
    ensures LightsOn(after) == (on & (CAB_MASK | PAD_MASK)) & !light
  {
    MaskOff(on, light, CAB_MASK | PAD_MASK);
  }

  /** LightOn adds the defined lights of `light` to those on; no other
      light changes. */
  lemma LightOnAdds(io: IOState, light: bv32, links: LightsLinks)
    requires LightsKnown(io)
    ensures LightsOn(LightOn(io, light, links).io) == LightsOn(io) | (light & (CAB_MASK | PAD_MASK))
  {
    var before := LightsOn(io);
    var after := LightsOn(LightOn(io, light, links).io);
    assert after == (before | light) & (CAB_MASK | PAD_MASK) by {
      SetLightsRemembers(io, before | light, links);
    }
    OnOffMasks(io, light);
  }

  /** LightOff takes the lights of `light` away from those on; no other
      light changes. */
  lemma LightOffRemoves(io: IOState, light: bv32, links: LightsLinks)
    requires LightsKnown(io)
    ensures LightsOn(LightOff(io, light, links).io) == LightsOn(io) & !light
  {
    var before := LightsOn(io);
    var after := LightsOn(LightOff(io, light, links).io);
    assert after == (before & !light) & (CAB_MASK | PAD_MASK) by {
      SetLightsRemembers(io, before & !light, links);
    }
    OnOffMasks(io, light);
  }

  lemma OnOffMasks(io: IOState, light: bv32)
    requires LightsKnown(io)
    ensures (LightsOn(io) | light) & (CAB_MASK | PAD_MASK) == LightsOn(io) | (light & (CAB_MASK | PAD_MASK))
    ensures (LightsOn(io) & !light) & (CAB_MASK | PAD_MASK) == LightsOn(io) & !light
  {
    KnownWithinDefined(io.lastCabLights, io.lastPadLights, light, CAB_MASK, PAD_MASK);
  }

  lemma KnownWithinDefined(cab: bv32, pad: bv32, light: bv32, cm: bv32, pm: bv32)
    requires cab & !cm == 0 && pad & !pm == 0
    ensures (cab | pad | light) & (cm | pm) == (cab | pad) | (light & (cm | pm))
    ensures ((cab | pad) & !light) & (cm | pm) == (cab | pad) & !light
  {
  }

  /** Whether the driver found and opened the P3IO. */
  function Ready(io: IOState): bool
  {
    io.ready
  }

  /** The constructor leaves the driver ready exactly when it found the
      P3IO. */
  lemma ConstructSetsReady(p3ioFound: bool, extioOpened: bool, leftover: IOState, links: InitLinks)
    ensures Ready(Construct(p3ioFound, extioOpened, leftover, links).io) == p3ioFound
  {
  }

  /** The destructor always leaves the driver not ready. */
  lemma DestroyClearsReady(io: IOState, links: ShutdownLinks)
    ensures !Ready(Destroy(io, links).io)
  {
  }

  /** No other operation changes whether the driver is ready. */
  lemma ReadyPersists(io: IOState, poll: Poll, lights: bv32, links: LightsLinks, link: P3IOLink, request: nat)
    ensures Ready(Tick(io, poll).io) == Ready(io)
    ensures Ready(SetLights(io, lights, links).io) == Ready(io)
    ensures Ready(LightOn(io, lights, links).io) == Ready(io)
    ensures Ready(LightOff(io, lights, links).io) == Ready(io)
    ensures Ready(GetVersion(io, link).io) == Ready(io)
    ensures Ready(SetMode(io, link).io) == Ready(io)
    ensures Ready(GetCabType(io, request, link).io) == Ready(io)
    ensures Ready(GetCoinstock(io, link).io) == Ready(io)
    ensures Ready(FeedWatchdog(io, link).io) == Ready(io)
  {
    LightsKeepReady(io, poll, lights, links);
    QueriesKeepReady(io, link, request);
  }

  lemma LightsKeepReady(io: IOState, poll: Poll, lights: bv32, links: LightsLinks)
    ensures Ready(Tick(io, poll).io) == Ready(io)
    ensures Ready(SetLights(io, lights, links).io) == Ready(io)
    ensures Ready(LightOn(io, lights, links).io) == Ready(io)
    ensures Ready(LightOff(io, lights, links).io) == Ready(io)
  {
  }

  lemma QueriesKeepReady(io: IOState, link: P3IOLink, request: nat)
    ensures Ready(GetVersion(io, link).io) == Ready(io)
    ensures Ready(SetMode(io, link).io) == Ready(io)
    ensures Ready(GetCabType(io, request, link).io) == Ready(io)
    ensures Ready(GetCoinstock(io, link).io) == Ready(io)
    ensures Ready(FeedWatchdog(io, link).io) == Ready(io)
  {
  }

  /** One poll of the inputs: the buttons held so far become the previous
      ones and the poll's buttons the current ones. A driver that is not
      ready does nothing. */
  function Tick(io: IOState, poll: Poll): (s: Step<()>)
    ensures !io.ready ==> s == Step(io, [], ())
    ensures io.ready ==> s.events == [ButtonPoll]
    ensures io.ready ==> ButtonsHeld(s.io) == PollButtons(poll) && ButtonsPressed(s.io) == Pressed(PollButtons(poll), ButtonsHeld(io))
    ensures s.io.ready == io.ready && s.io.extio == io.extio && s.io.sequence == io.sequence
    ensures s.io.lastCabLights == io.lastCabLights && s.io.lastPadLights == io.lastPadLights
  {
    if !io.ready then Step(io, [], ())
    else Step(io.(lastButtons := io.buttons, buttons := PollButtons(poll)), [ButtonPoll], ())
  }

  /** The buttons held now that were not held at the poll before. */
  function ButtonsPressed(io: IOState): (r: bv32)
    ensures r & !io.buttons == 0 && r & io.lastButtons == 0
  {
    PressedWithin(io.buttons, io.lastButtons);
    Pressed(io.buttons, io.lastButtons)
  }

  /** Whether any button of `button` was newly pressed; for a single
      button, whether it is held now and was not held at the poll before. */
  predicate ButtonPressed(io: IOState, button: bv32): (b: bool)
    ensures SingleBit(button) ==> (b <==> Any(io.buttons, button) && !Any(io.lastButtons, button))
  {
    PressedIff(io.buttons, io.lastButtons, button);
    Any(ButtonsPressed(io), button)
  }

  /** The buttons held at the last poll. */
  function ButtonsHeld(io: IOState): (r: bv32)
    ensures ButtonsPressed(io) & !r == 0
  {
    io.buttons
  }

  /** Whether any button of `button` is held. */
  predicate ButtonHeld(io: IOState, button: bv32): (b: bool)
    ensures ButtonPressed(io, button) ==> b
  {
    PressedAny(io.buttons, io.lastButtons, button);
    Any(ButtonsHeld(io), button)
  }

  /** Only held buttons can be pressed, and a button held at the previous
      poll is not pressed. */
  lemma PressedWithinHeld(io: IOState, button: bv32)
    ensures ButtonsPressed(io) & !ButtonsHeld(io) == 0
    ensures ButtonsPressed(io) & io.lastButtons == 0
    ensures ButtonPressed(io, button) ==> ButtonHeld(io, button)
  {
    PressedWithin(io.buttons, io.lastButtons);
    PressedAny(io.buttons, io.lastButtons, button);
  }

  /** A button is pressed after a tick exactly when the poll reports it
      held and the poll before did not. */
  lemma TickPressed(io: IOState, poll: Poll, button: bv32)
    requires io.ready
    ensures ButtonPressed(Tick(io, poll).io, button) <==> PollButtons(poll) & !io.buttons & button != 0
    ensures SingleBit(button) ==>
      (ButtonPressed(Tick(io, poll).io, button) <==> Any(PollButtons(poll), button) && !Any(io.buttons, button))
  {
    PressedAfter(Tick(io, poll).io, PollButtons(poll), io.buttons, button);
  }

  lemma PressedAfter(after: IOState, held: bv32, last: bv32, button: bv32)
    requires after.buttons == held && after.lastButtons == last
    ensures ButtonPressed(after, button) <==> held & !last & button != 0
    ensures SingleBit(button) ==> (ButtonPressed(after, button) <==> Any(held, button) && !Any(last, button))
  {
    PressedMask(held, last, button);
    PressedIff(held, last, button);
  }

  /** A button is held after a tick exactly when the poll reports it. */
  lemma TickHeld(io: IOState, poll: Poll, button: bv32)
    requires io.ready
    ensures ButtonHeld(Tick(io, poll).io, button) <==> PollButtons(poll) & button != 0
  {
    HeldIs(Tick(io, poll).io, PollButtons(poll), button);
  }

  lemma HeldIs(after: IOState, held: bv32, button: bv32)
    requires after.buttons == held
    ensures ButtonHeld(after, button) <==> held & button != 0
  {
  }

  /** A button held at two polls in a row is pressed only after the first:
      whatever the first poll reported held is never reported pressed by
      the second. */
  lemma PressedOnlyOnce(io: IOState, first: Poll, second: Poll)
    requires io.ready
    ensures var once := Tick(io, first).io;
            var twice := Tick(once, second).io;
            && ButtonsPressed(twice) & PollButtons(first) == 0
            && ButtonsPressed(twice) == PollButtons(second) & !PollButtons(first)
  {
  }

  /** The answers the construction sequence meets. */
  datatype InitLinks = InitLinks(
    version: P3IOLink, mode: P3IOLink, cabType1: P3IOLink, coinstock: P3IOLink,
    cabType0: P3IOLink, lights: LightsLinks, watchdog: P3IOLink)

  /** The state construction starts the init sequence from: ready, counter
      and buttons zero, and all lights remembered on so that the first
      SetLights sends both groups. */
  function Fresh(extioOpened: bool): (io: IOState)
    ensures io.ready && io.sequence == 0 && io.buttons == 0 && io.lastButtons == 0
  {
    IOState(true, if extioOpened then Open else Absent, 0, 0, 0, 0xFFFF_FFFF, 0xFFFF_FFFF)
  }

  /** The constructor. When the P3IO is not found the driver is not ready
      and its other fields are whatever `leftover` holds: the source never
      sets them. Otherwise it runs the init sequence: version, mode, cabinet
      type 1, coinstock, cabinet type 0, all lights off, watchdog. */
  function Construct(p3ioFound: bool, extioOpened: bool, leftover: IOState, links: InitLinks): (s: Step<()>)
    ensures !p3ioFound ==> !s.io.ready && s.events == []
    ensures p3ioFound ==> s.io.ready && s.io.extio == (if extioOpened then Open else Absent)
  {
    if !p3ioFound then Step(leftover.(ready := false), [], ())
    else
      var q := QueryPhase(Fresh(extioOpened), links);
      var l := LightsPhase(q.io, links);
      Step(l.io, q.events + l.events, ())
  }

  /** The first five commands of the init sequence, one after the other. */
  function QueryPhase(io: IOState, links: InitLinks): (s: Step<()>)
    ensures s.io.ready == io.ready && s.io.extio == io.extio
  {
    var s1 := GetVersion(io, links.version);
    var s2 := SetMode(s1.io, links.mode);
    var s3 := GetCabType(s2.io, 1, links.cabType1);
    var s4 := GetCoinstock(s3.io, links.coinstock);
    var s5 := GetCabType(s4.io, 0, links.cabType0);
    Step(s5.io, s1.events + s2.events + s3.events + s4.events + s5.events, ())
  }

  /** The last two steps of the init sequence: all lights off, then a feed. */
  function LightsPhase(io: IOState, links: InitLinks): (s: Step<()>)
    ensures s.io.ready == io.ready && s.io.extio == io.extio
  {
    var s6 := SetLights(io, 0, links.lights);
    var s7 := FeedWatchdog(s6.io, links.watchdog);
    Step(s7.io, s6.events + s7.events, ())
  }

  /** The packets of the first five commands of the init sequence. */
  const QueryPackets: seq<Event> :=
    [Packet(0, VersionRequest), Packet(1, ModeRequest), Packet(2, CabTypeRequest(1)),
     Packet(3, CoinstockRequest), Packet(4, CabTypeRequest(0))]

  /** The I/O of the last two steps of the init sequence: the all-off
      lights command, the all-off EXTIO frame when the port is open, the
      feed inside SetLights and the final feed. */
  function LightsPackets(extioOpened: bool): seq<Event>
  {
    [Packet(5, LightsCommand(0))]
    + (if extioOpened then [ExtioWrite(ExtioFrame(0))] else [])
    + [Packet(6, WatchdogRequest()), Packet(7, WatchdogRequest())]
  }

  /** The first five commands of the init sequence: each writes one packet
      and advances the counter, nothing else changes. */
  lemma InitQueries(extioOpened: bool, links: InitLinks)
    ensures QueryPhase(Fresh(extioOpened), links) == Step(Fresh(extioOpened).(sequence := 5), QueryPackets, ())
  {
    var io := Fresh(extioOpened);
    var s1 := GetVersion(io, links.version);
    assert s1.io == io.(sequence := 1) && s1.events == [Packet(0, VersionRequest)] by {
      VersionStep(io, links.version);
    }
    var s2 := SetMode(s1.io, links.mode);
    assert s2.io == io.(sequence := 2) && s2.events == [Packet(1, ModeRequest)] by {
      ModeStep(s1.io, links.mode);
    }
    var s3 := GetCabType(s2.io, 1, links.cabType1);
    assert s3.io == io.(sequence := 3) && s3.events == [Packet(2, CabTypeRequest(1))] by {
      CabTypeStep(s2.io, 1, links.cabType1);
    }
    var s4 := GetCoinstock(s3.io, links.coinstock);
    assert s4.io == io.(sequence := 4) && s4.events == [Packet(3, CoinstockRequest)] by {
      CoinstockStep(s3.io, links.coinstock);
    }
    var s5 := GetCabType(s4.io, 0, links.cabType0);
    assert s5.io == io.(sequence := 5) && s5.events == [Packet(4, CabTypeRequest(0))] by {
      CabTypeStep(s4.io, 0, links.cabType0);
    }
    Singletons(Packet(0, VersionRequest), Packet(1, ModeRequest), Packet(2, CabTypeRequest(1)),
               Packet(3, CoinstockRequest), Packet(4, CabTypeRequest(0)));
    assert QueryPhase(io, links) == Step(s5.io, s1.events + s2.events + s3.events + s4.events + s5.events, ());
  }

  /** Every payload the driver sends starts with an opcode that needs no
      escape, so none of its packets overruns the outbound allocation. */
  lemma DriverPacketsFit(sequence: nat, request: nat, cab: bv32)
    ensures |Frame(sequence, VersionRequest)| <= OutboundAllocation(|VersionRequest|)
    ensures |Frame(sequence, ModeRequest)| <= OutboundAllocation(|ModeRequest|)
    ensures |Frame(sequence, CabTypeRequest(request))| <= OutboundAllocation(|CabTypeRequest(request)|)
    ensures |Frame(sequence, CoinstockRequest)| <= OutboundAllocation(|CoinstockRequest|)
    ensures |Frame(sequence, WatchdogRequest())| <= OutboundAllocation(|WatchdogRequest()|)
    ensures |Frame(sequence, LightsCommand(cab))| <= OutboundAllocation(|LightsCommand(cab)|)
  {
    OpcodeFirstFits(sequence, VersionRequest);
    OpcodeFirstFits(sequence, ModeRequest);
    OpcodeFirstFits(sequence, CabTypeRequest(request));
    OpcodeFirstFits(sequence, CoinstockRequest);
    OpcodeFirstFits(sequence, WatchdogRequest());
    OpcodeFirstFits(sequence, LightsCommand(cab));
  }

  lemma Singletons(a: Event, b: Event, c: Event, d: Event, e: Event)
    ensures [a] + [b] + [c] + [d] + [e] == [a, b, c, d, e]
  {
  }

  /** Each query of a ready driver writes its packet and advances the
      counter. */
  lemma VersionStep(io: IOState, link: P3IOLink)
    requires io.ready
    ensures GetVersion(io, link).io == io.(sequence := NextSequence(io.sequence))
    ensures GetVersion(io, link).events == [Packet(io.sequence, VersionRequest)]
  {
  }

  lemma ModeStep(io: IOState, link: P3IOLink)
    requires io.ready
    ensures SetMode(io, link).io == io.(sequence := NextSequence(io.sequence))
    ensures SetMode(io, link).events == [Packet(io.sequence, ModeRequest)]
  {
  }

  lemma CabTypeStep(io: IOState, request: nat, link: P3IOLink)
    requires io.ready
    ensures GetCabType(io, request, link).io == io.(sequence := NextSequence(io.sequence))
    ensures GetCabType(io, request, link).events == [Packet(io.sequence, CabTypeRequest(request))]
  {
  }

  lemma CoinstockStep(io: IOState, link: P3IOLink)
    requires io.ready
    ensures GetCoinstock(io, link).io == io.(sequence := NextSequence(io.sequence))
    ensures GetCoinstock(io, link).events == [Packet(io.sequence, CoinstockRequest)]
  {
  }

  /** The last two steps of the init sequence: all lights off from the
      all-on remembered state, then the watchdog. */
  lemma InitLights(io: IOState, links: InitLinks)
    requires io.ready && io.sequence == 5 && io.lastCabLights == 0xFFFF_FFFF && io.lastPadLights == 0xFFFF_FFFF
    requires io.extio != Closed
    ensures LightsPhase(io, links).events == LightsPackets(io.extio.Open?)
    ensures LightsPhase(io, links).io == io.(sequence := 8, lastCabLights := 0, lastPadLights := 0)
  {
    assert CabinetPart(0) == 0 && PadPart(0) == 0;
    SetLightsEvents(io, 0, links.lights);
  }

  /** The init sequence writes eight packets with counters 0-7, and an
      all-off EXTIO frame after the lights command when the port is open;
      afterwards all lights are remembered off and no button is held. */
  lemma InitSequence(extioOpened: bool, leftover: IOState, links: InitLinks)
    ensures var s := Construct(true, extioOpened, leftover, links);
            && s.events == QueryPackets + LightsPackets(extioOpened)
            && s.io == IOState(true, if extioOpened then Open else Absent, 8, 0, 0, 0, 0)
  {
    var io := Fresh(extioOpened);
    var q := QueryPhase(io, links);
    assert q == Step(io.(sequence := 5), QueryPackets, ()) by {
      InitQueries(extioOpened, links);
    }
    var l := LightsPhase(q.io, links);
    assert l.events == LightsPackets(extioOpened)
        && l.io == IOState(true, if extioOpened then Open else Absent, 8, 0, 0, 0, 0) by {
      InitLights(q.io, links);
    }
  }

  /** The answers the destructor meets. */
  datatype ShutdownLinks = ShutdownLinks(lights: LightsLinks, watchdog: P3IOLink)

  /** The destructor: closes the EXTIO port, turns all lights off, feeds the
      watchdog a last time and marks the driver not ready. A driver that is
      not ready does nothing. */
  function Destroy(io: IOState, links: ShutdownLinks): (s: Step<()>)
    ensures !io.ready ==> s == Step(io, [], ())
    ensures !s.io.ready
  {
    if !io.ready then Step(io, [], ())
    else
      var closed := io.(extio := if io.extio.Open? then Closed else io.extio);
      var s1 := SetLights(closed, 0, links.lights);
      var s2 := FeedWatchdog(s1.io, links.watchdog);
      Step(s2.io.(ready := false), s1.events + s2.events, ())
  }

  /** The destructor's I/O: the all-off lights command if any cabinet light
      was on, then two watchdog feeds. Because the EXTIO port is closed
      first, no EXTIO frame goes out, and the pad lights keep whatever they
      last showed. */
  lemma ShutdownOrder(io: IOState, links: ShutdownLinks)
    requires io.ready
    ensures var s := Destroy(io, links);
            var seq1 := if io.lastCabLights != 0 then NextSequence(io.sequence) else io.sequence;
            && s.events
               == (if io.lastCabLights != 0 then [Packet(io.sequence, LightsCommand(0))] else [])
                + [Packet(seq1, WatchdogRequest()), Packet(NextSequence(seq1), WatchdogRequest())]
            && CountExtio(s.events) == 0
            && s.io.lastCabLights == 0 && s.io.lastPadLights == 0
            && s.io.extio != Open
  {
    var closed := io.(extio := if io.extio.Open? then Closed else io.extio);
    var l := if io.lastCabLights != 0 then [Packet(io.sequence, LightsCommand(0))] else [];
    var seq1 := if io.lastCabLights != 0 then NextSequence(io.sequence) else io.sequence;
    var w1 := Packet(seq1, WatchdogRequest());
    var w2 := Packet(NextSequence(seq1), WatchdogRequest());
    var s1 := SetLights(closed, 0, links.lights);
    ShutdownLights(closed, links.lights);
    var s2 := FeedWatchdog(s1.io, links.watchdog);
    assert s2.events == [w2];
    assert Destroy(io, links).events == s1.events + s2.events;
    PacketsOnly(l, w1, w2);
  }

  /** The destructor's lights call, on a driver whose EXTIO port is not
      open: the all-off command if any cabinet light was on, then a feed. */
  lemma ShutdownLights(closed: IOState, links: LightsLinks)
    requires closed.ready && !closed.extio.Open?
    ensures var s := SetLights(closed, 0, links);
            var l := if closed.lastCabLights != 0 then [Packet(closed.sequence, LightsCommand(0))] else [];
            var seq1 := if closed.lastCabLights != 0 then NextSequence(closed.sequence) else closed.sequence;
            && s.events == l + [Packet(seq1, WatchdogRequest())]
            && s.io.sequence == NextSequence(seq1)
            && s.io.ready && s.io.extio == closed.extio && s.io.lastCabLights == 0 && s.io.lastPadLights == 0
  {
    var l := if closed.lastCabLights != 0 then [Packet(closed.sequence, LightsCommand(0))] else [];
    var seq1 := if closed.lastCabLights != 0 then NextSequence(closed.sequence) else closed.sequence;
    assert CabinetPart(0) == 0 && PadPart(0) == 0;
    SetLightsEvents(closed, 0, links);
    assert l + [] + [Packet(seq1, WatchdogRequest())] == l + [Packet(seq1, WatchdogRequest())];
  }

  /** A trace of at most one P3IO packet followed by two more holds no
      EXTIO frame. */
  lemma PacketsOnly(l: seq<Event>, w1: Event, w2: Event)
    requires |l| <= 1 && (|l| == 1 ==> l[0].P3IOWrite?)
    requires w1.P3IOWrite? && w2.P3IOWrite?
    ensures (l + [w1]) + [w2] == l + [w1, w2]
    ensures CountExtio(l + [w1, w2]) == 0
  {
    assert CountExtio([w2]) == 0;
    assert CountExtio([w1, w2]) == 0 by {
      assert [w1, w2][1..] == [w2];
    }
    assert CountExtio(l) == 0 by {
      if |l| == 1 {
        assert l[1..] == [];
      }
    }
    CountAppend(l, [w1, w2], WATCHDOG_CMD);
  }
}
