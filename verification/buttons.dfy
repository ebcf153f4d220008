/** The logical buttons (IO.h) and the input sampler that maps the P3IO's
    active-low poll reply onto them (IO.cpp, GetButtonsHeld). */
module Buttons {
  import opened Wire

  const BUTTON_1P_UP: bv32 := 0x0001
  const BUTTON_1P_DOWN: bv32 := 0x0002
  const BUTTON_1P_LEFT: bv32 := 0x0004
  const BUTTON_1P_RIGHT: bv32 := 0x0008

  const BUTTON_2P_UP: bv32 := 0x0010
  const BUTTON_2P_DOWN: bv32 := 0x0020
  const BUTTON_2P_LEFT: bv32 := 0x0040
  const BUTTON_2P_RIGHT: bv32 := 0x0080

  const BUTTON_1P_MENUUP: bv32 := 0x0100
  const BUTTON_1P_MENUDOWN: bv32 := 0x0200
  const BUTTON_1P_MENULEFT: bv32 := 0x0400
  const BUTTON_1P_MENURIGHT: bv32 := 0x0800

  const BUTTON_2P_MENUUP: bv32 := 0x1000
  const BUTTON_2P_MENUDOWN: bv32 := 0x2000
  const BUTTON_2P_MENULEFT: bv32 := 0x4000
  const BUTTON_2P_MENURIGHT: bv32 := 0x8000

  const BUTTON_1P_START: bv32 := 0x10000
  const BUTTON_2P_START: bv32 := 0x20000

  const BUTTON_TEST: bv32 := 0x100000
  const BUTTON_SERVICE: bv32 := 0x200000
  const BUTTON_COIN: bv32 := 0x400000

  /** The union of all logical buttons (see ButtonConstants). */
  const ALL_BUTTONS: bv32 := 0x73_FFFF


  /** One wire of the cabinet: the logical `button` is held when bit `bit`
      of active-high poll byte `index` is set. */
  datatype Contact = Contact(index: nat, bit: bv8, button: bv32)

  /** The sampler's bit table, in source order. Active bytes 0-3 are poll
      bytes 1-4 inverted. */
  const Wiring: seq<Contact> := [
    Contact(0, 0x02, BUTTON_1P_UP),
    Contact(0, 0x04, BUTTON_1P_DOWN),
    Contact(0, 0x08, BUTTON_1P_LEFT),
    Contact(0, 0x10, BUTTON_1P_RIGHT),
    Contact(1, 0x02, BUTTON_2P_UP),
    Contact(1, 0x04, BUTTON_2P_DOWN),
    Contact(1, 0x08, BUTTON_2P_LEFT),
    Contact(1, 0x10, BUTTON_2P_RIGHT),
    Contact(3, 0x01, BUTTON_1P_MENUUP),
    Contact(3, 0x02, BUTTON_1P_MENUDOWN),
    Contact(0, 0x40, BUTTON_1P_MENULEFT),
    Contact(0, 0x80, BUTTON_1P_MENURIGHT),
    Contact(3, 0x04, BUTTON_2P_MENUUP),
    Contact(3, 0x08, BUTTON_2P_MENUDOWN),
    Contact(1, 0x40, BUTTON_2P_MENULEFT),
    Contact(1, 0x80, BUTTON_2P_MENURIGHT),
    Contact(0, 0x01, BUTTON_1P_START),
    Contact(1, 0x01, BUTTON_2P_START),
    Contact(2, 0x20, BUTTON_COIN),
    Contact(2, 0x40, BUTTON_SERVICE),
    Contact(2, 0x10, BUTTON_TEST)
  ]

  /** The buttons driven by contacts `i` onwards. */
  function ButtonsFrom(table: seq<Contact>, i: nat): bv32
    decreases |table| - i
  {
    if i >= |table| then 0 else table[i].button | ButtonsFrom(table, i + 1)
  }

  /** From contact `i` on, every contact reads one of the four active bytes
      and drives a single button bit that no later contact drives. */
  predicate WellWired(table: seq<Contact>, i: nat)
    decreases |table| - i
  {
    i >= |table| ||
    (&& table[i].index < 4
     && SingleBit(table[i].button)
     && table[i].button & ButtonsFrom(table, i + 1) == 0
     && WellWired(table, i + 1))
  }

  /** The button definitions are distinct single bits within bits 0-22, and
      the wiring table drives each of them once and nothing else. */
  lemma ButtonConstants()
    ensures WellWired(Wiring, 0)
    ensures forall i :: 0 <= i <= |Wiring| ==> WellWired(Wiring, i)
    ensures ButtonsFrom(Wiring, 0) == ALL_BUTTONS
    ensures ALL_BUTTONS ==
      BUTTON_1P_UP | BUTTON_1P_DOWN | BUTTON_1P_LEFT | BUTTON_1P_RIGHT |
      BUTTON_2P_UP | BUTTON_2P_DOWN | BUTTON_2P_LEFT | BUTTON_2P_RIGHT |
      BUTTON_1P_MENUUP | BUTTON_1P_MENUDOWN | BUTTON_1P_MENULEFT | BUTTON_1P_MENURIGHT |
      BUTTON_2P_MENUUP | BUTTON_2P_MENUDOWN | BUTTON_2P_MENULEFT | BUTTON_2P_MENURIGHT |
      BUTTON_1P_START | BUTTON_2P_START |
      BUTTON_TEST | BUTTON_SERVICE | BUTTON_COIN
    ensures ALL_BUTTONS < 0x80_0000
    ensures |Wiring| == 21
  {
    assert WellWired(Wiring, 20);
    assert WellWired(Wiring, 18);
    assert WellWired(Wiring, 16);
    assert WellWired(Wiring, 14);
    assert WellWired(Wiring, 12);
    assert WellWired(Wiring, 10);
    assert WellWired(Wiring, 8);
    assert WellWired(Wiring, 6);
    assert WellWired(Wiring, 4);
    assert WellWired(Wiring, 2);
    forall i | 0 <= i <= |Wiring|
      ensures WellWired(Wiring, i)
    {
      WellWiredSuffix(Wiring, 0, i);
    }
  }

  lemma {:induction false} WellWiredSuffix(table: seq<Contact>, i: nat, k: nat)
    requires WellWired(table, i)
    requires i <= k
    ensures WellWired(table, k)
    decreases k - i
  {
    if i < k && i < |table| {
      WellWiredSuffix(table, i + 1, k);
    }
  }

  /** Each contact's button lies within the buttons driven from any earlier
      point of the table. */
  lemma {:induction false} WithinButtonsFrom(table: seq<Contact>, i: nat, k: nat)
    requires i <= k < |table|
    ensures table[k].button & !ButtonsFrom(table, i) == 0
    decreases k - i
  {
    if i < k {
      WithinButtonsFrom(table, i + 1, k);
    }
  }

  /** In a well-wired table two contacts never drive the same bit. */
  lemma {:induction false} WellWiredPairwise(table: seq<Contact>, i: nat, j: nat, k: nat)
    requires WellWired(table, i)
    requires i <= j < k < |table|
    ensures table[j].button & table[k].button == 0
    decreases j - i
  {
    if i < j {
      WellWiredPairwise(table, i + 1, j, k);
    } else {
      WithinButtonsFrom(table, j + 1, k);
    }
  }

  /** The 21 entries of the poll mapping drive 21 different buttons: no two
      entries set a common bit. */
  lemma DistinctButtons()
    ensures forall j, k :: 0 <= j < k < |Wiring| ==> Wiring[j].button & Wiring[k].button == 0
  {
    ButtonConstants();
    forall j, k | 0 <= j < k < |Wiring|
      ensures Wiring[j].button & Wiring[k].button == 0
    {
      WellWiredPairwise(Wiring, 0, j, k);
    }
  }

  predicate Closed(active: seq<bv8>, c: Contact)
    requires c.index < |active|
  {
    active[c.index] & c.bit != 0
  }

  /** The buttons that contacts `i` onwards report held for four
      active-high bytes. */
  function WiringMask(active: seq<bv8>, table: seq<Contact>, i: nat): bv32
    requires |active| == 4
    requires WellWired(table, i)
    decreases |table| - i
  {
    if i >= |table| then 0
    else (if Closed(active, table[i]) then table[i].button else 0) | WiringMask(active, table, i + 1)
  }

  /** A table never reports a bit outside the buttons it drives. */
  lemma {:induction false} WiringMaskWithin(active: seq<bv8>, table: seq<Contact>, i: nat)
    requires |active| == 4
    requires WellWired(table, i)
    ensures WiringMask(active, table, i) & !ButtonsFrom(table, i) == 0
    decreases |table| - i
  {
    if i < |table| {
      WiringMaskWithin(active, table, i + 1);
    }
  }

  /** A contact's own button is reported held exactly when the contact is
      closed: no later contact drives the same bit. */
  lemma WiringMaskOwn(active: seq<bv8>, table: seq<Contact>, i: nat)
    requires |active| == 4
    requires WellWired(table, i)
    requires i < |table|
    ensures WiringMask(active, table, i) & table[i].button != 0 <==> Closed(active, table[i])
  {
    WiringMaskWithin(active, table, i + 1);
  }

  /** In a well-wired table each button is reported held exactly when its
      contact is closed. */
  lemma {:induction false} WiringMaskExact(active: seq<bv8>, table: seq<Contact>, i: nat, k: nat)
    requires |active| == 4
    requires WellWired(table, i)
    requires i <= k < |table|
    ensures WellWired(table, k)
    ensures WiringMask(active, table, i) & table[k].button != 0 <==> Closed(active, table[k])
    decreases k - i, 1
  {
    if i == k {
      WiringMaskOwn(active, table, i);
    } else {
      WiringMaskLater(active, table, i, k);
    }
  }

  /** A later contact's button is unaffected by contact `i`. */
  lemma {:induction false} WiringMaskLater(active: seq<bv8>, table: seq<Contact>, i: nat, k: nat)
    requires |active| == 4
    requires WellWired(table, i)
    requires i < k < |table|
    ensures WellWired(table, k)
    ensures WiringMask(active, table, i) & table[k].button != 0 <==> Closed(active, table[k])
    decreases k - i, 0
  {
    WellWiredSuffix(table, i, k);
    WiringMaskExact(active, table, i + 1, k);
    WithinButtonsFrom(table, i + 1, k);
    DisjointOr(Closed(active, table[i]), table[i].button, WiringMask(active, table, i + 1), table[k].button, ButtonsFrom(table, i + 1));
  }

  /** A bit outside `later` cannot be the one that `rest`, inside `later`,
      contributes. */
  lemma DisjointOr(closed: bool, own: bv32, rest: bv32, b: bv32, later: bv32)
    requires own & later == 0
    requires b & !later == 0
    ensures ((if closed then own else 0) | rest) & b == rest & b
  {
  }

  /** The wiring table reports only defined buttons. */
  lemma SampleWithinButtons(active: seq<bv8>)
    requires |active| == 4
    ensures WellWired(Wiring, 0)
    ensures WiringMask(active, Wiring, 0) & !ALL_BUTTONS == 0
  {
    ButtonConstants();
    WiringMaskWithin(active, Wiring, 0);
  }

  /** Poll byte `raw[i]` made active high. */
  function Active(raw: byte): bv8
  {
    Complement(raw) as bv8
  }

  /** What the button poll IOCTL delivered. */
  datatype Poll =
    | PollFailed                // DeviceIoControl reported failure
    | PollReply(raw: seq<byte>) // the bytes it returned

  /** The buttons held according to one poll: zero unless exactly twelve
      bytes came back; otherwise bytes 1-4, active low, read through the
      wiring table. */
  function PollButtons(poll: Poll): (held: bv32)
    ensures held & !ALL_BUTTONS == 0
    ensures poll.PollFailed? || |poll.raw| != 12 ==> held == 0
  {
    if poll.PollFailed? || |poll.raw| != 12 then 0
    else
      var active := ActiveBytes(poll.raw);
      SampleWithinButtons(active);
      WiringMask(active, Wiring, 0)
  }

  /** Poll bytes 1-4, inverted. */
  function ActiveBytes(raw: seq<byte>): (a: seq<bv8>)
    requires |raw| == 12
    ensures |a| == 4
    ensures forall j :: 0 <= j < 4 ==> a[j] == Active(raw[1 + j])
  {
    [Active(raw[1]), Active(raw[2]), Active(raw[3]), Active(raw[4])]
  }

  /** A twelve-byte poll reports a button exactly when its wire's bit is
      low in poll bytes 1-4, whatever the other eight bytes hold. */
  lemma SampleFollowsWiring(raw: seq<byte>)
    requires |raw| == 12
    ensures forall k :: 0 <= k < |Wiring| ==>
      Wiring[k].index < 4 &&
      (PollButtons(PollReply(raw)) & Wiring[k].button != 0 <==> Active(raw[1 + Wiring[k].index]) & Wiring[k].bit != 0)
  {
    forall k | 0 <= k < |Wiring|
      ensures Wiring[k].index < 4
      ensures PollButtons(PollReply(raw)) & Wiring[k].button != 0 <==> Active(raw[1 + Wiring[k].index]) & Wiring[k].bit != 0
    {
      SampleContact(raw, k);
    }
  }

  lemma SampleContact(raw: seq<byte>, k: nat)
    requires |raw| == 12
    requires k < |Wiring|
    ensures Wiring[k].index < 4
    ensures PollButtons(PollReply(raw)) & Wiring[k].button != 0 <==> Active(raw[1 + Wiring[k].index]) & Wiring[k].bit != 0
  {
    var active := ActiveBytes(raw);
    ButtonConstants();
    assert PollButtons(PollReply(raw)) == WiringMask(active, Wiring, 0);
    WiringMaskExact(active, Wiring, 0, k);
  }

  /** With every contact from `i` on closed, the table reports all the
      buttons it drives from there. */
  lemma {:induction false} AllClosedMask(active: seq<bv8>, table: seq<Contact>, i: nat)
    requires |active| == 4
    requires WellWired(table, i)
    requires forall k :: i <= k < |table| ==> table[k].index < 4 && Closed(active, table[k])
    ensures WiringMask(active, table, i) == ButtonsFrom(table, i)
    decreases |table| - i
  {
    if i >= |table| {
      assert WiringMask(active, table, i) == 0 == ButtonsFrom(table, i);
    } else {
      assert Closed(active, table[i]);
      AllClosedMask(active, table, i + 1);
      OrSame(table[i].button, WiringMask(active, table, i + 1), ButtonsFrom(table, i + 1));
    }
  }

  lemma OrSame(b: bv32, x: bv32, y: bv32)
    requires x == y
    ensures b | x == b | y
  {
  }

  /** With no contact from `i` on closed, the table reports nothing. */
  lemma {:induction false} NoneClosedMask(active: seq<bv8>, table: seq<Contact>, i: nat)
    requires |active| == 4
    requires WellWired(table, i)
    requires forall k :: i <= k < |table| ==> table[k].index < 4 && !Closed(active, table[k])
    ensures WiringMask(active, table, i) == 0
    decreases |table| - i
  {
    if i < |table| {
      NoneClosedMask(active, table, i + 1);
    }
  }

  /** A poll with every line released (all bytes 0xFF) reports nothing held. */
  lemma AllReleased()
    ensures PollButtons(PollReply(seq(12, _ => 0xFF))) == 0
  {
    var active: seq<bv8> := [0, 0, 0, 0];
    assert ActiveBytes(seq(12, _ => 0xFF)) == active;
    ButtonConstants();
    NoneClosedMask(active, Wiring, 0);
  }

  /** A poll with every line pulled low (all bytes 0x00) reports every
      button held. */
  lemma AllAsserted()
    ensures PollButtons(PollReply(seq(12, _ => 0x00))) == ALL_BUTTONS
  {
    var active: seq<bv8> := [0xFF, 0xFF, 0xFF, 0xFF];
    assert ActiveBytes(seq(12, _ => 0x00)) == active;
    ButtonConstants();
    forall k | 0 <= k < |Wiring|
      ensures Wiring[k].index < 4 && Closed(active, Wiring[k])
    {
      assert Wiring[k].bit != 0;
    }
    AllClosedMask(active, Wiring, 0);
  }

  /** Pulling only bit 1 of poll byte 1 low reports exactly 1P up. */
  lemma OnlyFirstPlayerUp()
    ensures PollButtons(PollReply([0xFF, 0xFD] + seq(10, _ => 0xFF))) == BUTTON_1P_UP
  {
    var raw: seq<byte> := [0xFF, 0xFD] + seq(10, _ => 0xFF);
    var active: seq<bv8> := [0x02, 0, 0, 0];
    assert ActiveBytes(raw) == active;
    ButtonConstants();
    forall k | 1 <= k < |Wiring|
      ensures Wiring[k].index < 4 && !Closed(active, Wiring[k])
    {
    }
    NoneClosedMask(active, Wiring, 1);
    assert Closed(active, Wiring[0]);
    assert WiringMask(active, Wiring, 0) == BUTTON_1P_UP | 0;
  }
}
