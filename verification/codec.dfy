/** The byte stuffing of P3IO packets (IO.cpp, ExchangeP3IO): the two
    reserved values 0xAA and 0xFF travel as 0xFF followed by their
    complement, and the receiver undoes that one logical byte at a time. */
module Codec {
  import opened Wire

  /** Start-of-message marker that opens every P3IO packet. */
  const SOM: byte := 0xAA
  /** Escape marker: the next byte is the complement of a reserved byte. */
  const ESCAPE: byte := 0xFF

  predicate Reserved(b: byte)
  {
    b == SOM || b == ESCAPE
  }

  /** How many bytes of `p` must be escaped. */
  function CountReserved(p: seq<byte>): (c: nat)
    ensures c <= |p|
  {
    if p == [] then 0
    else (if Reserved(p[0]) then 1 else 0) + CountReserved(p[1..])
  }

  /** The wire form of one payload byte. */
  function StuffByte(b: byte): seq<byte>
  {
    if Reserved(b) then [ESCAPE, Complement(b)] else [b]
  }

  /** The wire form of a payload: each byte stuffed, in order. */
  function Stuff(p: seq<byte>): (w: seq<byte>)
    ensures |w| == |p| + CountReserved(p)
    ensures SOM !in w
  {
    if p == [] then [] else StuffByte(p[0]) + Stuff(p[1..])
  }

  /** Stuffing works byte by byte, so it distributes over concatenation. */
  lemma {:induction false} StuffAppend(a: seq<byte>, b: seq<byte>)
    ensures Stuff(a + b) == Stuff(a) + Stuff(b)
    decreases |a|
  {
    if a == [] {
      assert a + b == b;
    } else {
      assert (a + b)[0] == a[0];
      assert (a + b)[1..] == a[1..] + b;
      StuffAppend(a[1..], b);
    }
  }

  /** A payload without reserved bytes goes out unchanged, and only such a
      payload does. */
  lemma StuffIdentity(p: seq<byte>)
    ensures Stuff(p) == p <==> forall i :: 0 <= i < |p| ==> !Reserved(p[i])
  {
    if forall i :: 0 <= i < |p| ==> !Reserved(p[i]) {
      NoReservedStuffsToItself(p);
    }
  }

  lemma {:induction false} NoReservedStuffsToItself(p: seq<byte>)
    requires forall i :: 0 <= i < |p| ==> !Reserved(p[i])
    ensures Stuff(p) == p
    decreases |p|
  {
    if p != [] {
      assert !Reserved(p[0]);
      NoReservedStuffsToItself(p[1..]);
      assert p == [p[0]] + p[1..];
    }
  }

  /** The byte at index `k` of a received buffer. One past the received data
      the driver reads memory it never filled; that value is `beyond`, an
      input the model leaves arbitrary. */
  function ByteAt(rx: seq<byte>, k: nat, beyond: byte): byte
  {
    if k < |rx| then rx[k] else beyond
  }

  /** What unstuffing produced: the logical bytes, and whether all that were
      asked for were found before the received data ran out. */
  datatype Decoded = Decoded(data: seq<byte>, complete: bool)

  /** Unstuffs up to `n` logical bytes of `rx`, starting at index `loc`: an
      escape marker yields the complement of the byte after it, anything else
      is copied. Stops early, incomplete, when the data runs out before the
      start of a logical byte. */
  function Unstuff(rx: seq<byte>, loc: nat, n: nat, beyond: byte): (d: Decoded)
    ensures |d.data| <= n
    ensures d.complete <==> |d.data| == n
    decreases n
  {
    if n == 0 then Decoded([], true)
    else if loc >= |rx| then Decoded([], false)
    else
      var rest := Unstuff(rx, loc + Width(rx, loc), n - 1, beyond);
      Decoded([LogicalByte(rx, loc, beyond)] + rest.data, rest.complete)
  }

  /** The logical byte whose wire form starts at `loc`. */
  function LogicalByte(rx: seq<byte>, loc: nat, beyond: byte): byte
    requires loc < |rx|
  {
    if rx[loc] == ESCAPE then Complement(ByteAt(rx, loc + 1, beyond)) else rx[loc]
  }

  /** How many received bytes the logical byte at `loc` takes. */
  function Width(rx: seq<byte>, loc: nat): nat
    requires loc < |rx|
  {
    if rx[loc] == ESCAPE then 2 else 1
  }

  /** Unstuffing reads nothing before `loc`: only the suffix matters. */
  lemma {:induction false} UnstuffSuffix(pre: seq<byte>, rx: seq<byte>, loc: nat, n: nat, beyond: byte)
    ensures Unstuff(pre + rx, |pre| + loc, n, beyond) == Unstuff(rx, loc, n, beyond)
    decreases n
  {
    if n > 0 && loc < |rx| {
      assert (pre + rx)[|pre| + loc] == rx[loc];
      assert ByteAt(pre + rx, |pre| + loc + 1, beyond) == ByteAt(rx, loc + 1, beyond);
      UnstuffSuffix(pre, rx, loc + Width(rx, loc), n - 1, beyond);
    }
  }

  /** Unstuffing a stuffed payload, wherever it sits in the received data and
      whatever follows it, gives the payload back. */
  lemma {:induction false} UnstuffStuffed(pre: seq<byte>, p: seq<byte>, post: seq<byte>, n: nat, beyond: byte)
    requires n <= |p|
    ensures Unstuff(pre + Stuff(p) + post, |pre|, n, beyond) == Decoded(p[..n], true)
    decreases n
  {
    if n > 0 {
      var rx := pre + Stuff(p) + post;
      var pre' := pre + StuffByte(p[0]);
      var rest := Unstuff(rx, |pre'|, n - 1, beyond);
      assert Unstuff(rx, |pre|, n, beyond) == Decoded([p[0]] + rest.data, rest.complete) by {
        StuffedHead(pre, p, post, beyond);
      }
      assert rest == Decoded(p[1..][..n - 1], true) by {
        StuffedHead(pre, p, post, beyond);
        UnstuffStuffed(pre', p[1..], post, n - 1, beyond);
      }
      assert p[..n] == [p[0]] + p[1..][..n - 1];
    }
  }

  /** Asking for more logical bytes than a stuffed payload at the end of
      the data holds decodes the whole payload and then fails. */
  lemma {:induction false} UnstuffRunsOut(pre: seq<byte>, p: seq<byte>, n: nat, beyond: byte)
    requires |p| < n
    ensures Unstuff(pre + Stuff(p), |pre|, n, beyond) == Decoded(p, false)
    decreases |p|
  {
    var rx := pre + Stuff(p);
    if p == [] {
      assert rx == pre;
    } else {
      var pre' := pre + StuffByte(p[0]);
      StuffedHead(pre, p, [], beyond);
      assert rx == pre + Stuff(p) + [];
      assert rx == pre' + Stuff(p[1..]);
      var rest := Unstuff(rx, |pre'|, n - 1, beyond);
      assert rest == Decoded(p[1..], false) by {
        UnstuffRunsOut(pre', p[1..], n - 1, beyond);
      }
      assert Unstuff(rx, |pre|, n, beyond) == Decoded([p[0]] + rest.data, false);
      assert [p[0]] + p[1..] == p;
    }
  }

  /** The first logical byte of a stuffed payload is read back from its
      escaped or plain wire form, which is as wide as stuffing made it. */
  lemma StuffedHead(pre: seq<byte>, p: seq<byte>, post: seq<byte>, beyond: byte)
    requires |p| > 0
    ensures var rx := pre + Stuff(p) + post;
            && |pre| < |rx|
            && rx == (pre + StuffByte(p[0])) + Stuff(p[1..]) + post
            && LogicalByte(rx, |pre|, beyond) == p[0]
            && Width(rx, |pre|) == |StuffByte(p[0])|
  {
    var rx := pre + Stuff(p) + post;
    var head := StuffByte(p[0]);
    assert Stuff(p) == head + Stuff(p[1..]);
    assert rx == (pre + head) + Stuff(p[1..]) + post;
    assert rx[|pre|] == head[0];
    if Reserved(p[0]) {
      assert rx[|pre| + 1] == head[1];
    }
  }

  /** The round trip: unstuffing the stuffed payload recovers it exactly. */
  lemma StuffRoundTrip(p: seq<byte>, beyond: byte)
    ensures Unstuff(Stuff(p), 0, |p|, beyond) == Decoded(p, true)
  {
    UnstuffStuffed([], p, [], |p|, beyond);
    assert [] + Stuff(p) + [] == Stuff(p);
    assert p[..|p|] == p;
  }
}
