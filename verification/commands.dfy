/** The P3IO commands the driver issues (IO.cpp: GetVersion, SetMode,
    GetCabType, GetCoinstock, FeedWatchdog and the lights command of
    SetLights): their payloads, reply sizes, and how the cabinet type and
    coin counters are read out of a reply. */
module Commands {
  import opened Wire
  import opened Codec
  import opened Transport

  const VERSION_CMD: byte := 0x01
  const MODE_CMD: byte := 0x2F
  const WATCHDOG_CMD: byte := 0x05
  const CABTYPE_CMD: byte := 0x27
  const COINSTOCK_CMD: byte := 0x31

  /** Reply buffer sizes the driver declares for each command. */
  const VERSION_REPLY: nat := 20
  const MODE_REPLY: nat := 2
  const WATCHDOG_REPLY: nat := 2
  const CABTYPE_REPLY: nat := 2
  const COINSTOCK_REPLY: nat := 6
  const LIGHTS_REPLY: nat := 3

  /** Seconds the watchdog is set to on every feed. */
  const WATCHDOG_FEED_S: nat := 180

  /** Cabinet type codes. */
  const CABINET_UNKNOWN: nat := 0
  const CABINET_SD: nat := 1
  const CABINET_HD: nat := 2

  const VersionRequest: seq<byte> := [VERSION_CMD]
  const ModeRequest: seq<byte> := [MODE_CMD]
  const CoinstockRequest: seq<byte> := [COINSTOCK_CMD]

  /** The watchdog payload: the opcode and the feed time, which fits in the
      byte the driver stores it in. */
  function WatchdogRequest(): (p: seq<byte>)
    ensures p == [0x05, 0xB4]
  {
    [WATCHDOG_CMD, (WATCHDOG_FEED_S % 0x100) as byte]
  }

  /** The watchdog payload has no reserved byte, so its packet carries it
      unescaped right after the three header bytes. */
  lemma WatchdogUnstuffed(sequence: nat)
    ensures Stuff(WatchdogRequest()) == WatchdogRequest()
    ensures Frame(sequence, WatchdogRequest()) == [SOM, 0x03, Nibble(sequence), 0x05, 0xB4]
  {
    NoReservedStuffsToItself(WatchdogRequest());
  }

  /** The cabinet type request; the driver stores its `unsigned int`
      argument into a byte, keeping the low eight bits. */
  function CabTypeRequest(request: nat): (p: seq<byte>)
    ensures |p| == 2 && p[0] == CABTYPE_CMD && p[1] as nat == request % 0x100
    ensures !Reserved(p[0])
    ensures request < 0x100 ==> p[1] as nat == request
  {
    [CABTYPE_CMD, (request % 0x100) as byte]
  }

  /** The cabinet type in a reply: byte 1, provided exactly two bytes came
      back and byte 0 echoes the opcode; 0 otherwise. */
  function CabTypeOf(actual: nat, inbuf: seq<byte>): (t: nat)
    requires |inbuf| == CABTYPE_REPLY
    ensures t < 0x100
    ensures t != CABINET_UNKNOWN ==> actual == CABTYPE_REPLY && inbuf[0] == CABTYPE_CMD
    ensures actual == CABTYPE_REPLY && inbuf[0] == CABTYPE_CMD ==> t == inbuf[1] as nat
  {
    if actual == CABTYPE_REPLY then
      if inbuf[0] != CABTYPE_CMD then CABINET_UNKNOWN else inbuf[1] as nat
    else CABINET_UNKNOWN
  }

  /** The coin counters of both slots (`coincount`). */
  datatype CoinCount = CoinCount(slot1: nat, slot2: nat)

  /** A big-endian 16-bit counter: `hi << 8 | lo`. */
  function Counter(hi: byte, lo: byte): (c: nat)
    ensures c < 0x1_0000
  {
    hi as nat * 0x100 + lo as nat
  }

  /** The coin counters in a reply: bytes 2-3 and 4-5, provided exactly six
      bytes came back, byte 0 echoes the opcode and byte 1 is zero; both
      counters 0 otherwise. */
  function CoinstockOf(actual: nat, inbuf: seq<byte>): (c: CoinCount)
    requires |inbuf| == COINSTOCK_REPLY
    ensures c.slot1 < 0x1_0000 && c.slot2 < 0x1_0000
    ensures c != CoinCount(0, 0) ==> actual == COINSTOCK_REPLY && inbuf[0] == COINSTOCK_CMD && inbuf[1] == 0
  {
    if actual == COINSTOCK_REPLY && inbuf[0] == COINSTOCK_CMD && inbuf[1] == 0 then
      CoinCount(Counter(inbuf[2], inbuf[3]), Counter(inbuf[4], inbuf[5]))
    else CoinCount(0, 0)
  }

  /** The reply a board holding counters `c` sends to a coinstock request. */
  function CoinstockReply(c: CoinCount): (r: seq<byte>)
    requires c.slot1 < 0x1_0000 && c.slot2 < 0x1_0000
    ensures |r| == COINSTOCK_REPLY
  {
    [COINSTOCK_CMD, 0x00,
     (c.slot1 / 0x100) as byte, (c.slot1 % 0x100) as byte,
     (c.slot2 / 0x100) as byte, (c.slot2 % 0x100) as byte]
  }

  /** Reading the counters back out of that reply gives them unchanged. */
  lemma CoinstockRoundTrip(c: CoinCount)
    requires c.slot1 < 0x1_0000 && c.slot2 < 0x1_0000
    ensures CoinstockOf(COINSTOCK_REPLY, CoinstockReply(c)) == c
  {
  }

  /** The exchange a command wrapper makes, with the zero-filled reply
      buffer it declares. */
  function Call(ready: bool, sequence: nat, payload: seq<byte>, inlen: nat, link: P3IOLink): Exchange
  {
    ExchangeP3IO(ready, sequence, payload, Zeros(inlen), link)
  }

  /** The link of a board that takes the whole packet and answers `answer`
      after `noise`, with any sequence nibble, followed by `post`. */
  function Answering(sequence: nat, payload: seq<byte>, noise: seq<byte>, echo: nat, answer: seq<byte>, post: seq<byte>, beyond: byte): P3IOLink
  {
    P3IOLink(|Frame(sequence, payload)|, noise + Frame(echo, answer) + post, beyond)
  }

  /** A board answering `[0x27, t]` makes GetCabType report `t`. */
  lemma CabTypeAnswered(sequence: nat, request: nat, noise: seq<byte>, echo: nat, t: byte, post: seq<byte>, beyond: byte)
    requires SOM !in noise
    requires |noise| <= 62
    ensures var x := Call(true, sequence, CabTypeRequest(request), CABTYPE_REPLY,
                          Answering(sequence, CabTypeRequest(request), noise, echo, [CABTYPE_CMD, t], post, beyond));
            CabTypeOf(x.actual, x.inbuf) == t as nat
  {
    var answer := [CABTYPE_CMD, t];
    assert |Frame(echo, answer)| <= 6;
    ExchangeRoundTrip(sequence, CabTypeRequest(request), Zeros(CABTYPE_REPLY), noise, echo, answer, post, beyond);
  }
  /** The cabinet type codes a board answers with read back as those
      codes. */
  lemma CabinetTypesAnswered(sequence: nat, request: nat, noise: seq<byte>, echo: nat, post: seq<byte>, beyond: byte)
    requires SOM !in noise
    requires |noise| <= 62
    ensures var sd := Call(true, sequence, CabTypeRequest(request), CABTYPE_REPLY,
                           Answering(sequence, CabTypeRequest(request), noise, echo, [CABTYPE_CMD, CABINET_SD as byte], post, beyond));
            CabTypeOf(sd.actual, sd.inbuf) == CABINET_SD
    ensures var hd := Call(true, sequence, CabTypeRequest(request), CABTYPE_REPLY,
                           Answering(sequence, CabTypeRequest(request), noise, echo, [CABTYPE_CMD, CABINET_HD as byte], post, beyond));
            CabTypeOf(hd.actual, hd.inbuf) == CABINET_HD
  {
    CabTypeAnswered(sequence, request, noise, echo, CABINET_SD as byte, post, beyond);
    CabTypeAnswered(sequence, request, noise, echo, CABINET_HD as byte, post, beyond);
  }


  /** A board answering with its counters makes GetCoinstock report them. */
  lemma CoinstockAnswered(sequence: nat, noise: seq<byte>, echo: nat, c: CoinCount, post: seq<byte>, beyond: byte)
    requires SOM !in noise
    requires c.slot1 < 0x1_0000 && c.slot2 < 0x1_0000
    requires |noise| <= 63
    ensures var x := Call(true, sequence, CoinstockRequest, COINSTOCK_REPLY,
                          Answering(sequence, CoinstockRequest, noise, echo, CoinstockReply(c), post, beyond));
            CoinstockOf(x.actual, x.inbuf) == c
  {
    var answer := CoinstockReply(c);
    assert |Frame(echo, answer)| <= 13;
    ExchangeRoundTrip(sequence, CoinstockRequest, Zeros(COINSTOCK_REPLY), noise, echo, answer, post, beyond);
    CoinstockRoundTrip(c);
  }

  /** The outcome of the corrected read, in the shape of an exchange result. */
  function CorrectedCall(sequence: nat, payload: seq<byte>, inlen: nat, link: P3IOLink): Exchange
  {
    var frame := Frame(sequence, payload);
    if link.written != |frame| then Exchange(NextSequence(sequence), [P3IOWrite(frame)], 0, Zeros(inlen))
    else
      var p := ParseReplyCorrected(Received(link.reply, inlen), inlen, link.beyond);
      Exchange(NextSequence(sequence), [P3IOWrite(frame)], Returned(p), Overlay(Zeros(inlen), Written(p)))
  }

  /** The wrapped length never reaches a caller: GetCabType and GetCoinstock
      demand an exact reply length, so they report the same with the
      driver's read as with the corrected one. */
  lemma WrapInvisibleToCommands(sequence: nat, request: nat, link: P3IOLink)
    ensures var x := Call(true, sequence, CabTypeRequest(request), CABTYPE_REPLY, link);
            var y := CorrectedCall(sequence, CabTypeRequest(request), CABTYPE_REPLY, link);
            CabTypeOf(x.actual, x.inbuf) == CabTypeOf(y.actual, y.inbuf)
    ensures var x := Call(true, sequence, CoinstockRequest, COINSTOCK_REPLY, link);
            var y := CorrectedCall(sequence, CoinstockRequest, COINSTOCK_REPLY, link);
            CoinstockOf(x.actual, x.inbuf) == CoinstockOf(y.actual, y.inbuf)
  {
    CorrectedAgreesOff(CabTypeRequest(request), CABTYPE_REPLY, sequence, link);
    CorrectedAgreesOff(CoinstockRequest, COINSTOCK_REPLY, sequence, link);
  }

  /** The two reads return the same length except that the driver's
      UINT_MAX becomes 0, and whenever the driver's read succeeds with a
      real length they leave the same bytes behind. */
  lemma CorrectedAgreesOff(payload: seq<byte>, inlen: nat, sequence: nat, link: P3IOLink)
    ensures var x := Call(true, sequence, payload, inlen, link);
            var y := CorrectedCall(sequence, payload, inlen, link);
            && y.actual == (if x.actual == UINT_MAX then 0 else x.actual)
            && (x.actual != 0 && x.actual != UINT_MAX ==> x.inbuf == y.inbuf)
  {
    var rx := Received(link.reply, inlen);
    CorrectedParseAgrees(rx, inlen, link.beyond);
    var k := StartIndex(rx);
    if !(k + 1 < |rx| && rx[k + 1] == 0) {
      assert ParseReplyCorrected(rx, inlen, link.beyond) == ParseReply(rx, inlen, link.beyond);
    }
  }
}
