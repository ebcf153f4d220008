/** The P3IO packet exchange (IO.cpp, ExchangeP3IO): frame and stuff a
    command, write it, then find and unstuff the reply. */
module Transport {
  import opened Wire
  import opened Codec

  /** The largest `unsigned int`. */
  const UINT_MAX: nat := 0xFFFF_FFFF

  /** Declared length of a packet: payload length plus one for the sequence
      byte, truncated to the `unsigned char` it is stored in. */
  function LengthByte(outlen: nat): byte
  {
    ((outlen + 1) % 256) as byte
  }

  /** The sequence byte: the low four bits of the counter. */
  function Nibble(sequence: nat): byte
  {
    (sequence % 16) as byte
  }

  /** The driver's `sequence++` on an `unsigned int`. */
  function NextSequence(sequence: nat): nat
  {
    (sequence + 1) % 0x1_0000_0000
  }

  /** An outbound packet: start marker, declared length, sequence nibble,
      then the stuffed payload. */
  function Frame(sequence: nat, payload: seq<byte>): (f: seq<byte>)
    ensures |f| == 3 + |payload| + CountReserved(payload)
    ensures f[0] == SOM && SOM !in f[3..]
  {
    [SOM, LengthByte(|payload|), Nibble(sequence)] + Stuff(payload)
  }

  /** Bytes the driver allocates for the outbound packet (IO.cpp:345). */
  function OutboundAllocation(outlen: nat): nat
  {
    2 * outlen + 2
  }

  /** Bytes the outbound packet can actually need: three header bytes plus
      every payload byte escaped. */
  function FrameCapacity(outlen: nat): nat
  {
    2 * outlen + 3
  }

  /** The packet fits the driver's allocation exactly when at least one
      payload byte needs no escape. */
  lemma FrameFitsAllocationIff(sequence: nat, payload: seq<byte>)
    ensures |Frame(sequence, payload)| <= OutboundAllocation(|payload|)
        <==> CountReserved(payload) < |payload|
  {
  }

  /** A one-byte payload 0xAA builds a 5-byte packet in a 4-byte buffer. */
  lemma FrameOverrunsAllocation()
    ensures |Frame(0, [SOM])| == OutboundAllocation(1) + 1
  {
    assert Stuff([SOM]) == [ESCAPE, Complement(SOM)];
  }

  /** Builds the outbound packet the way the driver's loop does, one payload
      byte at a time. The result never outgrows `FrameCapacity`. */
  method BuildFrame(sequence: nat, payload: seq<byte>) returns (frame: seq<byte>)
    ensures frame == Frame(sequence, payload)
    ensures |frame| <= FrameCapacity(|payload|)
  {
    var header := [SOM, LengthByte(|payload|), Nibble(sequence)];
    frame := header;
    var i := 0;
    while i < |payload|
      invariant 0 <= i <= |payload|
      invariant frame == header + Stuff(payload[..i])
    {
      var b := payload[i];
      var piece;
      if b == SOM || b == ESCAPE {
        piece := [ESCAPE, Complement(b)];
      } else {
        piece := [b];
      }
      ghost var done := Stuff(payload[..i]);
      assert Stuff([b]) == piece by {
        assert [b][1..] == [];
      }
      StuffAppend(payload[..i], [b]);
      assert payload[..i + 1] == payload[..i] + [b];
      assert header + done + piece == header + (done + piece);
      frame := frame + piece;
      i := i + 1;
    }
    assert payload[..i] == payload;
    assert frame[3..] == Stuff(payload);
  }

  /** Index of the first start marker in `rx`, or `|rx|` when there is none. */
  function StartIndex(rx: seq<byte>): (k: nat)
    ensures k <= |rx|
    ensures k < |rx| ==> rx[k] == SOM
    ensures forall i :: 0 <= i < k ==> rx[i] != SOM
  {
    if rx == [] then 0
    else if rx[0] == SOM then 0
    else 1 + StartIndex(rx[1..])
  }

  /** The first start marker is the only index that has no start marker
      before it. */
  lemma {:induction false} StartIndexUnique(rx: seq<byte>, k: nat)
    requires k <= |rx|
    requires k < |rx| ==> rx[k] == SOM
    requires forall i :: 0 <= i < k ==> rx[i] != SOM
    ensures StartIndex(rx) == k
    decreases k
  {
    if k > 0 {
      assert rx[0] != SOM;
      StartIndexUnique(rx[1..], k - 1);
    }
  }

  /** The driver's `realLen`: the declared length minus the sequence byte,
      computed in `unsigned int`, so a declared length of 0 wraps. */
  function PayloadLength(declared: byte): (n: nat)
    ensures declared == 0 ==> n == UINT_MAX
    ensures declared != 0 ==> n + 1 == declared as nat
  {
    (declared as int - 1) % 0x1_0000_0000
  }

  /** The outcome of reading a reply. */
  datatype Parse =
    | NoStart                                // no 0xAA anywhere
    | NoLength                               // 0xAA was the last byte
    | Truncated(partial: seq<byte>)          // ran out before enough bytes
    | Parsed(payloadLen: nat, data: seq<byte>)

  /** The value `ExchangeP3IO` returns for a parse outcome. */
  function Returned(p: Parse): nat
  {
    if p.Parsed? then p.payloadLen else 0
  }

  /** The bytes a parse outcome has written into the caller's buffer. */
  function Written(p: Parse): seq<byte>
  {
    match p
    case NoStart => []
    case NoLength => []
    case Truncated(partial) => partial
    case Parsed(_, data) => data
  }

  /** Reads a reply for a caller buffer of `inlen` bytes: skip to the first
      start marker, take the declared length, skip the sequence echo, then
      unstuff `min(inlen, declared - 1)` logical bytes. */
  function ParseReply(rx: seq<byte>, inlen: nat, beyond: byte): (p: Parse)
    ensures p.NoStart? <==> SOM !in rx
    ensures |Written(p)| <= inlen
    ensures p.Parsed? ==> |p.data| == Min(inlen, p.payloadLen)
    ensures p.Parsed? ==> p.payloadLen < 255 || p.payloadLen == UINT_MAX
    ensures p.NoLength? <==> StartIndex(rx) + 1 == |rx|
    ensures p.Parsed? ==> StartIndex(rx) + 1 < |rx| && p.payloadLen == PayloadLength(rx[StartIndex(rx) + 1])
  {
    ParseAt(rx, StartIndex(rx), inlen, beyond)
  }

  /** Reads a reply whose start marker is at index `k` (`|rx|` for none). */
  function ParseAt(rx: seq<byte>, k: nat, inlen: nat, beyond: byte): Parse
    requires k <= |rx|
  {
    if k == |rx| then NoStart
    else if k + 1 >= |rx| then NoLength
    else
      var len := PayloadLength(rx[k + 1]);
      var d := Unstuff(rx, k + 3, Min(inlen, len), beyond);
      if d.complete then Parsed(len, d.data) else Truncated(d.data)
  }

  /** Bytes before the start marker do not change how a reply is read. */
  lemma ParseAtShift(pre: seq<byte>, rx: seq<byte>, k: nat, inlen: nat, beyond: byte)
    requires k <= |rx|
    ensures ParseAt(pre + rx, |pre| + k, inlen, beyond) == ParseAt(rx, k, inlen, beyond)
  {
    if k + 1 < |rx| {
      var n := Min(inlen, PayloadLength(rx[k + 1]));
      assert (pre + rx)[|pre| + k + 1] == rx[k + 1];
      UnstuffSuffix(pre, rx, k + 3, n, beyond);
    }
  }

  /** A start marker that is the last byte received leaves no length byte:
      the read fails and returns 0. */
  lemma StartMarkerLast(noise: seq<byte>, inlen: nat, beyond: byte)
    requires SOM !in noise
    ensures ParseReply(noise + [SOM], inlen, beyond) == NoLength
    ensures Returned(ParseReply(noise + [SOM], inlen, beyond)) == 0
  {
    NoiseStart(noise, [SOM]);
  }

  /** A reply whose data runs out before `min(inlen, declared - 1)` logical
      bytes fails and returns 0, keeping the bytes it did unstuff. */
  lemma ReplyRunsOut(noise: seq<byte>, declared: byte, echo: byte, payload: seq<byte>, inlen: nat, beyond: byte)
    requires SOM !in noise
    requires |payload| < Min(inlen, PayloadLength(declared))
    ensures ParseReply(noise + ([SOM, declared, echo] + Stuff(payload)), inlen, beyond) == Truncated(payload)
    ensures Returned(ParseReply(noise + ([SOM, declared, echo] + Stuff(payload)), inlen, beyond)) == 0
  {
    NoiseIgnored(noise, [SOM, declared, echo] + Stuff(payload), inlen, beyond);
    TruncatedAtStart(declared, echo, payload, inlen, beyond);
  }


  /** The same, for a reply that starts at the first byte received. */
  lemma TruncatedAtStart(declared: byte, echo: byte, payload: seq<byte>, inlen: nat, beyond: byte)
    requires |payload| < Min(inlen, PayloadLength(declared))
    ensures ParseReply([SOM, declared, echo] + Stuff(payload), inlen, beyond) == Truncated(payload)
  {
    var rx := [SOM, declared, echo] + Stuff(payload);
    var n := Min(inlen, PayloadLength(declared));
    assert ParseReply(rx, inlen, beyond) == ParseAt(rx, 0, inlen, beyond) by {
      StartIndexUnique(rx, 0);
    }
    assert Unstuff(rx, 3, n, beyond) == Decoded(payload, false) by {
      UnstuffRunsOut([SOM, declared, echo], payload, n, beyond);
    }
    assert rx[1] == declared;
  }

  /** A payload whose first byte needs no escape fits the driver's
      allocation. */
  lemma OpcodeFirstFits(sequence: nat, payload: seq<byte>)
    requires |payload| > 0 && !Reserved(payload[0])
    ensures |Frame(sequence, payload)| <= OutboundAllocation(|payload|)
  {
    FrameFitsAllocationIff(sequence, payload);
  }

  /** Finds the start of a reply the way the driver's first loop does. */
  method FindStart(rx: seq<byte>) returns (loc: nat)
    ensures loc == StartIndex(rx)
  {
    loc := 0;
    while loc < |rx| && rx[loc] != SOM
      invariant loc <= |rx|
      invariant forall i :: 0 <= i < loc ==> rx[i] != SOM
    {
      loc := loc + 1;
    }
    StartIndexUnique(rx, loc);
  }

  /** The driver's decoding loop: unstuffs `n` logical bytes from index
      `start` into the caller's buffer, stopping with a failure when the
      data runs out first. */
  method UnstuffInto(rx: seq<byte>, start: nat, n: nat, inbuf: seq<byte>, beyond: byte)
    returns (complete: bool, out: seq<byte>)
    requires n <= |inbuf|
    ensures complete == Unstuff(rx, start, n, beyond).complete
    ensures out == Overlay(inbuf, Unstuff(rx, start, n, beyond).data)
  {
    var loc: nat := start;
    out := inbuf;
    var i := 0;
    ghost var done: seq<byte> := [];
    while i < n
      invariant 0 <= i <= n
      invariant |done| == i
      invariant out == done + inbuf[i..]
      invariant Unstuff(rx, start, n, beyond)
        == Decoded(done + Unstuff(rx, loc, n - i, beyond).data, Unstuff(rx, loc, n - i, beyond).complete)
    {
      if loc >= |rx| {
        assert Unstuff(rx, loc, n - i, beyond) == Decoded([], false);
        assert done + [] == done;
        return false, out;
      }
      var b := if rx[loc] == ESCAPE then Complement(ByteAt(rx, loc + 1, beyond)) else rx[loc];
      var width := if rx[loc] == ESCAPE then 2 else 1;
      assert b == LogicalByte(rx, loc, beyond) && width == Width(rx, loc);
      ghost var rest := Unstuff(rx, loc + width, n - i - 1, beyond);
      assert Unstuff(rx, loc, n - i, beyond) == Decoded([b] + rest.data, rest.complete);
      DecodedShift(Unstuff(rx, start, n, beyond), done, b, Unstuff(rx, loc, n - i, beyond), rest);
      assert out[i := b] == (done + [b]) + inbuf[i + 1..] by {
        WriteNext(done, inbuf[i..], b);
        assert inbuf[i..][1..] == inbuf[i + 1..];
      }
      out := out[i := b];
      done := done + [b];
      loc := loc + width;
      i := i + 1;
    }
    assert Unstuff(rx, loc, 0, beyond) == Decoded([], true);
    assert done + [] == done;
    return true, out;
  }

  /** Moving one decoded byte from the part still to decode to the part
      already written. */
  lemma DecodedShift(total: Decoded, done: seq<byte>, b: byte, here: Decoded, rest: Decoded)
    requires here == Decoded([b] + rest.data, rest.complete)
    requires total == Decoded(done + here.data, here.complete)
    ensures total == Decoded((done + [b]) + rest.data, rest.complete)
  {
    assert done + ([b] + rest.data) == (done + [b]) + rest.data;
  }

  /** Writing the next byte of a buffer whose first part is already done. */
  lemma WriteNext(done: seq<byte>, rest: seq<byte>, b: byte)
    requires |rest| > 0
    ensures (done + rest)[|done| := b] == (done + [b]) + rest[1..]
  {
  }

  /** Reads a reply the way the driver does; the result is the returned
      length and the caller's buffer afterwards. */
  method ScanReply(rx: seq<byte>, inbuf: seq<byte>, beyond: byte) returns (actual: nat, out: seq<byte>)
    ensures actual == Returned(ParseReply(rx, |inbuf|, beyond))
    ensures out == Overlay(inbuf, Written(ParseReply(rx, |inbuf|, beyond)))
  {
    var loc := FindStart(rx);
    ghost var k := loc;
    assert ParseReply(rx, |inbuf|, beyond) == ParseAt(rx, k, |inbuf|, beyond);
    if loc >= |rx| {
      assert inbuf[0..] == inbuf;
      return 0, inbuf;
    }
    loc := loc + 1;
    if loc >= |rx| {
      assert inbuf[0..] == inbuf;
      return 0, inbuf;
    }
    var realLen := PayloadLength(rx[loc]);
    loc := loc + 2;
    var complete;
    complete, out := UnstuffInto(rx, loc, Min(|inbuf|, realLen), inbuf, beyond);
    actual := if complete then realLen else 0;
  }

  /** A reply built like an outbound packet is read back exactly, whatever
      noise without a start marker precedes it, whatever sequence nibble it
      carries and whatever follows it. */
  lemma ParseFramedReply(noise: seq<byte>, echo: nat, payload: seq<byte>, post: seq<byte>, inlen: nat, beyond: byte)
    requires SOM !in noise
    requires |payload| < 255
    ensures ParseReply(noise + Frame(echo, payload) + post, inlen, beyond)
         == Parsed(|payload|, payload[..Min(inlen, |payload|)])
  {
    var rx := noise + Frame(echo, payload) + post;
    var k := |noise|;
    assert rx[k] == SOM;
    forall i | 0 <= i < k ensures rx[i] != SOM {
      assert rx[i] == noise[i];
    }
    StartIndexUnique(rx, k);
    assert rx[k + 1] == LengthByte(|payload|);
    assert LengthByte(|payload|) as int == |payload| + 1;
    assert PayloadLength(rx[k + 1]) == |payload|;
    var pre := noise + [SOM, LengthByte(|payload|), Nibble(echo)];
    assert rx == pre + Stuff(payload) + post;
    assert |pre| == k + 3;
    UnstuffStuffed(pre, payload, post, Min(inlen, |payload|), beyond);
  }

  /** Noise before the first start marker is discarded. */
  lemma NoiseIgnored(noise: seq<byte>, rx: seq<byte>, inlen: nat, beyond: byte)
    requires SOM !in noise
    ensures ParseReply(noise + rx, inlen, beyond) == ParseReply(rx, inlen, beyond)
  {
    var k := StartIndex(rx);
    assert StartIndex(noise + rx) == |noise| + k by {
      NoiseStart(noise, rx);
    }
    assert ParseAt(noise + rx, |noise| + k, inlen, beyond) == ParseAt(rx, k, inlen, beyond) by {
      ParseAtShift(noise, rx, k, inlen, beyond);
    }
  }

  /** The first start marker after noise is the first one of what follows. */
  lemma NoiseStart(noise: seq<byte>, rx: seq<byte>)
    requires SOM !in noise
    ensures StartIndex(noise + rx) == |noise| + StartIndex(rx)
  {
    var all := noise + rx;
    var k := StartIndex(rx);
    forall i | 0 <= i < |noise| + k ensures all[i] != SOM {
      if i < |noise| { assert all[i] == noise[i]; } else { assert all[i] == rx[i - |noise|]; }
    }
    if |noise| + k < |all| { assert all[|noise| + k] == rx[k]; }
    StartIndexUnique(all, |noise| + k);
  }

  /** The sequence echo of a reply is skipped without being checked. */
  lemma SequenceEchoIgnored(rx: seq<byte>, inlen: nat, beyond: byte, echo: byte)
    requires StartIndex(rx) + 2 < |rx|
    ensures ParseReply(rx[StartIndex(rx) + 2 := echo], inlen, beyond) == ParseReply(rx, inlen, beyond)
  {
    var k := StartIndex(rx);
    var rx' := rx[k + 2 := echo];
    assert StartIndex(rx') == k by {
      forall i | 0 <= i < k ensures rx'[i] != SOM {
        assert rx'[i] == rx[i];
      }
      StartIndexUnique(rx', k);
    }
    var n := Min(inlen, PayloadLength(rx[k + 1]));
    assert rx'[k + 1] == rx[k + 1];
    assert rx'[k + 3..] == rx[k + 3..];
    SameTail(rx', rx, k + 3, n, beyond);
  }

  /** Unstuffing from `loc` reads nothing before `loc`. */
  lemma SameTail(a: seq<byte>, b: seq<byte>, loc: nat, n: nat, beyond: byte)
    requires loc <= |a| && loc <= |b|
    requires a[loc..] == b[loc..]
    ensures Unstuff(a, loc, n, beyond) == Unstuff(b, loc, n, beyond)
  {
    assert a == a[..loc] + a[loc..];
    assert b == b[..loc] + b[loc..];
    UnstuffSuffix(a[..loc], a[loc..], 0, n, beyond);
    UnstuffSuffix(b[..loc], b[loc..], 0, n, beyond);
  }

  /** A declared length of 0 is accepted, and the driver reports a
      4294967295-byte reply once it has filled the caller's buffer. */
  lemma DeclaredZeroWraps(beyond: byte)
    ensures ParseReply([SOM, 0x00, 0x00, 0x27, 0x01], 2, beyond) == Parsed(UINT_MAX, [0x27, 0x01])
    ensures Returned(ParseReply([SOM, 0x00, 0x00, 0x27, 0x01], 2, beyond)) == UINT_MAX
  {
    var rx: seq<byte> := [SOM, 0x00, 0x00, 0x27, 0x01];
    assert StartIndex(rx) == 0;
    assert Unstuff(rx, 5, 0, beyond) == Decoded([], true);
    assert Unstuff(rx, 4, 1, beyond) == Decoded([0x01], true);
    assert Unstuff(rx, 3, 2, beyond) == Decoded([0x27, 0x01], true);
  }

  /** The reply read with a declared length of 0 treated as malformed, the
      one case where the driver's `realLen` wraps. */
  function ParseReplyCorrected(rx: seq<byte>, inlen: nat, beyond: byte): (p: Parse)
    ensures Returned(p) < 255
    ensures p.Parsed? ==> |p.data| == Min(inlen, p.payloadLen)
    ensures p.Parsed? ==> StartIndex(rx) + 1 < |rx| && rx[StartIndex(rx) + 1] as nat == p.payloadLen + 1
  {
    var k := StartIndex(rx);
    if k + 1 < |rx| && rx[k + 1] == 0 then NoLength
    else ParseReply(rx, inlen, beyond)
  }

  /** The corrected read returns what the driver's does, except that the
      wrapped length becomes a failure. */
  lemma CorrectedParseAgrees(rx: seq<byte>, inlen: nat, beyond: byte)
    ensures Returned(ParseReplyCorrected(rx, inlen, beyond))
         == (if Returned(ParseReply(rx, inlen, beyond)) == UINT_MAX then 0 else Returned(ParseReply(rx, inlen, beyond)))
  {
  }

  /** What a P3IO exchange meets on the wire: the byte count WriteFile
      reports, the bytes the device answers with, and the unfilled byte of
      the receive buffer just past what was read. */
  datatype P3IOLink = P3IOLink(written: nat, reply: seq<byte>, beyond: byte)

  /** The result of an exchange: the new counter, the I/O performed, the
      returned length and the caller's buffer afterwards. */
  datatype Exchange = Exchange(sequence: nat, events: seq<Event>, actual: nat, inbuf: seq<byte>)

  /** The receive buffer the driver reads a reply into: twice the caller's
      capacity plus 64 bytes. */
  function ReadCapacity(inlen: nat): nat
  {
    2 * inlen + 64
  }

  /** The part of the device's answer that one read delivers. */
  function Received(reply: seq<byte>, inlen: nat): (rx: seq<byte>)
    ensures |rx| <= ReadCapacity(inlen)
    ensures |rx| <= |reply| && rx == reply[..|rx|]
    ensures |reply| <= ReadCapacity(inlen) ==> rx == reply
  {
    reply[..Min(|reply|, ReadCapacity(inlen))]
  }

  /** One P3IO command/response exchange. When not ready nothing happens.
      Otherwise the packet is written with the current counter, which then
      advances whatever follows; a short write returns 0 without reading. */
  function ExchangeP3IO(ready: bool, sequence: nat, outbuf: seq<byte>, inbuf: seq<byte>, link: P3IOLink): (x: Exchange)
    ensures !ready ==> x == Exchange(sequence, [], 0, inbuf)
    ensures ready ==> x.sequence == NextSequence(sequence)
    ensures ready ==> x.events == [P3IOWrite(Frame(sequence, outbuf))]
    ensures |x.inbuf| == |inbuf|
    ensures x.actual != 0 ==> ready && link.written == |Frame(sequence, outbuf)| && SOM in Received(link.reply, |inbuf|)
  {
    if !ready then Exchange(sequence, [], 0, inbuf)
    else
      var frame := Frame(sequence, outbuf);
      if link.written != |frame| then Exchange(NextSequence(sequence), [P3IOWrite(frame)], 0, inbuf)
      else
        var p := ParseReply(Received(link.reply, |inbuf|), |inbuf|, link.beyond);
        Exchange(NextSequence(sequence), [P3IOWrite(frame)], Returned(p), Overlay(inbuf, Written(p)))
  }

  /** An exchange with a device that takes the whole packet and answers with
      a well-formed reply delivers that reply's length and bytes. */
  lemma ExchangeRoundTrip(sequence: nat, outbuf: seq<byte>, inbuf: seq<byte>,
                          noise: seq<byte>, echo: nat, answer: seq<byte>, post: seq<byte>, beyond: byte)
    requires SOM !in noise
    requires |answer| < 255
    requires |noise + Frame(echo, answer)| <= ReadCapacity(|inbuf|)
    ensures var link := P3IOLink(|Frame(sequence, outbuf)|, noise + Frame(echo, answer) + post, beyond);
            var x := ExchangeP3IO(true, sequence, outbuf, inbuf, link);
            && x.actual == |answer|
            && x.inbuf[..Min(|inbuf|, |answer|)] == answer[..Min(|inbuf|, |answer|)]
            && x.inbuf[Min(|inbuf|, |answer|)..] == inbuf[Min(|inbuf|, |answer|)..]
  {
    var front := noise + Frame(echo, answer);
    var kept := post[..Min(|post|, ReadCapacity(|inbuf|) - |front|)];
    assert Received(front + post, |inbuf|) == front + kept;
    ParseFramedReply(noise, echo, answer, kept, |inbuf|, beyond);
  }
}
