/** The 16-bit data bus between the microcontroller and the ADC: which pin carries which bit, and the
    packed order in which `read` returns them. */
module DataBus {

  const PORT_A_MASK: bv16 := 0x9FD3
  const PORT_C_MASK: bv16 := 0x01E2

  /** Bit `k` of a 16-bit word. */
  function Bit(w: bv16, k: nat): bool
    requires k < 16
  {
    match k
    case 0 => w & 0x0001 != 0
    case 1 => w & 0x0002 != 0
    case 2 => w & 0x0004 != 0
    case 3 => w & 0x0008 != 0
    case 4 => w & 0x0010 != 0
    case 5 => w & 0x0020 != 0
    case 6 => w & 0x0040 != 0
    case 7 => w & 0x0080 != 0
    case 8 => w & 0x0100 != 0
    case 9 => w & 0x0200 != 0
    case 10 => w & 0x0400 != 0
    case 11 => w & 0x0800 != 0
    case 12 => w & 0x1000 != 0
    case 13 => w & 0x2000 != 0
    case 14 => w & 0x4000 != 0
    case _ => w & 0x8000 != 0
  }

  /** The pin on the board that carries data bit `k`, as its level in the two ports. */
  function PinLevel(a: bv16, c: bv16, k: nat): bool
    requires k < 16
  {
    match k
    case 0 => Bit(c, 8)
    case 1 => Bit(c, 6)
    case 2 => Bit(c, 5)
    case 3 => Bit(a, 12)
    case 4 => Bit(a, 11)
    case 5 => Bit(a, 9)
    case 6 => Bit(a, 8)
    case 7 => Bit(a, 10)
    case 8 => Bit(c, 1)
    case 9 => Bit(a, 4)
    case 10 => Bit(a, 1)
    case 11 => Bit(a, 0)
    case 12 => Bit(a, 6)
    case 13 => Bit(a, 7)
    case 14 => Bit(c, 7)
    case _ => Bit(a, 15)
  }

  /** Where data bit `k` stands in a packed word. */
  function Place(k: nat): (p: nat)
    requires k < 16
    ensures p < 16
  {
    match k
    case 0 => 3
    case 1 => 13
    case 2 => 5
    case 3 => 12
    case 4 => 11
    case 5 => 9
    case 6 => 8
    case 7 => 10
    case 8 => 2
    case 9 => 4
    case 10 => 1
    case 11 => 0
    case 12 => 6
    case 13 => 7
    case 14 => 14
    case _ => 15
  }

  /** The pins carry `word`, whoever drives them. */
  ghost predicate Carries(a: bv16, c: bv16, word: bv16) {
    forall k :: 0 <= k < 16 ==> PinLevel(a, c, k) == Bit(word, k)
  }

  /** What `write` puts on the ports. */
  function PortA(word: bv16): bv16 {
    ((word & 0x0008) << 9) | ((word & 0x0010) << 7) | ((word & 0x0020) << 4) | ((word & 0x0040) << 2) |
    ((word & 0x0080) << 3) | ((word & 0x0200) >> 5) | ((word & 0x0400) >> 9) | ((word & 0x0800) >> 11) |
    ((word & 0x1000) >> 6) | ((word & 0x2000) >> 6) | (word & 0x8000)
  }

  function PortC(word: bv16): bv16 {
    ((word & 0x0001) << 8) | ((word & 0x0002) << 5) | ((word & 0x0004) << 3) | ((word & 0x0100) >> 7) |
    ((word & 0x4000) >> 7)
  }

  /** What `read` makes of the levels of the two ports. */
  function Packed(a: bv16, c: bv16): bv16 {
    var portC := c & PORT_C_MASK;
    (a & PORT_A_MASK) | ((portC & 0x0002) << 1) | ((portC & 0x0100) >> 5) | (portC & 0x0020) | ((portC & 0x00C0) << 7)
  }

  lemma WriteBit(word: bv16, k: nat)
    requires k < 16
    ensures PinLevel(PortA(word), PortC(word), k) == Bit(word, k)
  {
    if k == 0 || k == 1 || k == 2 || k == 8 || k == 14 {
      WriteBitOnC(word, k);
    } else {
      WriteBitOnA(word, k);
    }
  }

  lemma WriteBitOnC(word: bv16, k: nat)
    requires k == 0 || k == 1 || k == 2 || k == 8 || k == 14
    ensures forall a :: PinLevel(a, PortC(word), k) == Bit(word, k)
  {
  }

  lemma WriteBitOnA(word: bv16, k: nat)
    requires k < 16 && k != 0 && k != 1 && k != 2 && k != 8 && k != 14
    ensures forall c :: PinLevel(PortA(word), c, k) == Bit(word, k)
  {
  }

  lemma ReadBit(a: bv16, c: bv16, k: nat)
    requires k < 16
    ensures Bit(Packed(a, c), Place(k)) == PinLevel(a, c, k)
  {
    if k == 0 || k == 1 || k == 2 || k == 8 || k == 14 {
      ReadBitOnC(a, c, k);
    } else {
      ReadBitOnA(a, c, k);
    }
  }

  lemma ReadBitOnC(a: bv16, c: bv16, k: nat)
    requires k == 0 || k == 1 || k == 2 || k == 8 || k == 14
    ensures Bit(Packed(a, c), Place(k)) == PinLevel(a, c, k)
  {
  }

  lemma ReadBitOnA(a: bv16, c: bv16, k: nat)
    requires k < 16 && k != 0 && k != 1 && k != 2 && k != 8 && k != 14
    ensures Bit(Packed(a, c), Place(k)) == PinLevel(a, c, k)
  {
    PackedKeepsA(a, c);
    BitUnderMask(Packed(a, c), a, Place(k));
    PlacedAsOnA(a, c, k);
  }

  lemma PackedKeepsA(a: bv16, c: bv16)
    ensures Packed(a, c) & PORT_A_MASK == a & PORT_A_MASK
  {
  }

  lemma BitUnderMask(x: bv16, y: bv16, p: nat)
    requires x & PORT_A_MASK == y & PORT_A_MASK
    requires p < 16 && p != 2 && p != 3 && p != 5 && p != 13 && p != 14
    ensures Bit(x, p) == Bit(y, p)
  {
  }

  lemma PlacedAsOnA(a: bv16, c: bv16, k: nat)
    requires k < 16 && k != 0 && k != 1 && k != 2 && k != 8 && k != 14
    ensures PinLevel(a, c, k) == Bit(a, Place(k))
  {
  }

  /** `write` drives the pins with the word, and no pin outside the bus. */
  lemma WriteDrivesPins(word: bv16)
    ensures Carries(PortA(word), PortC(word), word)
    ensures PortA(word) & !PORT_A_MASK == 0 && PortC(word) & !PORT_C_MASK == 0
  {
    forall k | 0 <= k < 16 ensures PinLevel(PortA(word), PortC(word), k) == Bit(word, k) {
      WriteBit(word, k);
    }
  }

  /** Every bit of `word` stands in its packed place. */
  ghost predicate IsPacked(packed: bv16, word: bv16) {
    forall k :: 0 <= k < 16 ==> Bit(packed, Place(k)) == Bit(word, k)
  }

  /** `read` returns every bit of the word on the pins, each in its packed place. */
  lemma ReadPacksPins(a: bv16, c: bv16, word: bv16)
    requires Carries(a, c, word)
    ensures IsPacked(Packed(a, c), word)
  {
    forall k | 0 <= k < 16 ensures Bit(Packed(a, c), Place(k)) == Bit(word, k) {
      ReadBit(a, c, k);
    }
  }

  lemma ReadPacksAll(a: bv16, c: bv16)
    ensures forall word :: Carries(a, c, word) ==> IsPacked(Packed(a, c), word)
  {
    forall word | Carries(a, c, word) ensures IsPacked(Packed(a, c), word) {
      ReadPacksPins(a, c, word);
    }
  }

  /** A word in which every bit stands in its packed place is determined by them, as is what `read`
      returns: levels outside the bus do not matter. */
  lemma PackedIsDetermined(packed: bv16, word: bv16)
    requires IsPacked(packed, word)
    ensures packed == Packed(PortA(word), PortC(word))
  {
    var driven := Packed(PortA(word), PortC(word));
    WriteDrivesPins(word);
    ReadPacksPins(PortA(word), PortC(word), word);
    if packed != driven {
      var k := Difference(packed, driven);
    }
  }

  /** Two different words differ in the place of some data bit. */
  lemma Difference(x: bv16, y: bv16) returns (k: nat)
    requires x != y
    ensures k < 16 && Bit(x, Place(k)) != Bit(y, Place(k))
  {
    if x & 0x0001 != y & 0x0001 {
      k := 11;
    } else if x & 0x0002 != y & 0x0002 {
      k := 10;
    } else if x & 0x0004 != y & 0x0004 {
      k := 8;
    } else if x & 0x0008 != y & 0x0008 {
      k := 0;
    } else if x & 0x0010 != y & 0x0010 {
      k := 9;
    } else if x & 0x0020 != y & 0x0020 {
      k := 2;
    } else if x & 0x0040 != y & 0x0040 {
      k := 12;
    } else if x & 0x0080 != y & 0x0080 {
      k := 13;
    } else if x & 0x0100 != y & 0x0100 {
      k := 6;
    } else if x & 0x0200 != y & 0x0200 {
      k := 5;
    } else if x & 0x0400 != y & 0x0400 {
      k := 7;
    } else if x & 0x0800 != y & 0x0800 {
      k := 4;
    } else if x & 0x1000 != y & 0x1000 {
      k := 3;
    } else if x & 0x2000 != y & 0x2000 {
      k := 1;
    } else if x & 0x4000 != y & 0x4000 {
      k := 14;
    } else {
      k := 15;
    }
  }

  /** `DataBusClass`, with the levels of the two ports. */
  class DataBusClass {
    var portA: bv16
    var portC: bv16
    var levelsA: bv16
    var levelsC: bv16

    constructor ()
      ensures portA == 0 && portC == 0
    {
      portA, portC, levelsA, levelsC := 0, 0, 0, 0;
    }

    method Write(word: bv16)
      modifies this
      ensures Carries(levelsA, levelsC, word)
      ensures levelsA & !PORT_A_MASK == 0 && levelsC & !PORT_C_MASK == 0
      ensures portA == levelsA && portC == levelsC
    {
      portA := 0x0000;
      portC := 0x0000;

      portC := portC | ((word & (1 << 0)) << 8);
      portC := portC | ((word & (1 << 1)) << 5);
      portC := portC | ((word & (1 << 2)) << 3);

      portA := portA | ((word & (1 << 3)) << 9);
      portA := portA | ((word & (1 << 4)) << 7);
      portA := portA | ((word & (1 << 5)) << 4);
      portA := portA | ((word & (1 << 6)) << 2);
      portA := portA | ((word & (1 << 7)) << 3);

      portC := portC | ((word & (1 << 8)) >> 7);

      portA := portA | ((word & (1 << 9)) >> 5);
      portA := portA | ((word & (1 << 10)) >> 9);
      portA := portA | ((word & (1 << 11)) >> 11);
      portA := portA | ((word & (1 << 12)) >> 6);
      portA := portA | ((word & (1 << 13)) >> 6);

      portC := portC | ((word & (1 << 14)) >> 7);

      portA := portA | (word & (1 << 15));

      levelsA, levelsC := portA, portC;
      assert levelsA == PortA(word) && levelsC == PortC(word);
      WriteDrivesPins(word);
    }

    method Read() returns (received: bv16)
      modifies this`portC
      ensures forall word :: Carries(levelsA, levelsC, word) ==> IsPacked(received, word)
    {
      received := ReadPorts();
      ReadPacksAll(levelsA, levelsC);
    }

    method ReadPorts() returns (received: bv16)
      modifies this`portC
      ensures received == Packed(levelsA, levelsC)
    {
      received := levelsA & PORT_A_MASK;
      portC := levelsC & PORT_C_MASK;
      received := received | ((portC & (1 << 1)) << 1);
      received := received | ((portC & (1 << 8)) >> 5);
      received := received | (portC & (1 << 5));
      received := received | ((portC & ((1 << 6) | (1 << 7))) << 7);
    }
  }
}
