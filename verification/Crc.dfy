/** The table-driven CRC-32 of keyfiles: src/crypto/keyfile.rs. */
module Crc {

  type Octets = seq<bv8>

  /** The reflected generator polynomial of the code in section 8 of RFC 1952. */
  const POLYNOMIAL: bv32 := 0xEDB8_8320

  function Xor(x: bv32, y: bv32): bv32 {
    x ^ y
  }

  function Half(x: bv32): bv32 {
    x >> 1
  }

  predicate Odd(x: bv32) {
    x & 1 != 0
  }

  function LowByte(x: bv32): bv8 {
    (x & 0xFF) as bv8
  }

  function Word(b: bv8): bv32 {
    b as bv32
  }

  function DropByte(x: bv32): bv32 {
    x >> 8
  }

  function HighBytes(x: bv32): bv32 {
    x & 0xFFFF_FF00
  }

  /** One step of the shift register without input. */
  function Shift(c: bv32): bv32 {
    if Odd(c) then Xor(POLYNOMIAL, Half(c)) else Half(c)
  }

  function Shifts(c: bv32, k: nat): bv32 {
    if k == 0 then c else Shift(Shifts(c, k - 1))
  }

  /** One step of the shift register fed with one message bit, the lowest of `bits`. */
  function FeedBit(c: bv32, bits: bv32): bv32 {
    if Odd(c) != Odd(bits) then Xor(POLYNOMIAL, Half(c)) else Half(c)
  }

  function Halves(x: bv32, k: nat): bv32 {
    if k == 0 then x else Half(Halves(x, k - 1))
  }

  /** The first k bits of a byte, least significant first, fed one by one. */
  function FeedBits(c: bv32, b: bv8, k: nat): bv32 {
    if k == 0 then c else FeedBit(FeedBits(c, b, k - 1), Halves(Word(b), k - 1))
  }

  /** The bit-serial checksum of a message: the reference that the table form is measured against. */
  function SerialCrc(c: bv32, data: Octets): bv32 {
    if data == [] then c else FeedBits(SerialCrc(c, data[..|data| - 1]), data[|data| - 1], 8)
  }

  /** What entry i of the lookup table holds. */
  function Entry(i: bv8): bv32 {
    Shifts(Word(i), 8)
  }

  /** The whole lookup table. */
  predicate IsTable(table: array<bv32>)
    reads table
  {
    table.Length == 256 && forall i :: 0 <= i < 256 ==> table[i] == Entry(i as bv8)
  }

  /** Builds the lookup table, entry by entry and bit by bit. */
  method BuildTable() returns (table: array<bv32>)
    ensures fresh(table) && IsTable(table)
  {
    hide Odd, Xor, Half, Word;
    table := new bv32[256](_ => 0);
    var i := 0;
    while i < 256
      invariant 0 <= i <= 256
      invariant forall j :: 0 <= j < i ==> table[j] == Entry(j as bv8)
    {
      var c := Word(i as bv8);
      ghost var start := c;
      var k := 0;
      while k < 8
        invariant 0 <= k <= 8
        invariant c == Shifts(start, k)
      {
        assert Shifts(start, k + 1) == Shift(c);
        if Odd(c) {
          c := Xor(POLYNOMIAL, Half(c));
        } else {
          c := Half(c);
        }
        k := k + 1;
      }
      table[i] := c;
      i := i + 1;
    }
  }

  /** One byte by table lookup. */
  function Step(crc: bv32, b: bv8): bv32 {
    Xor(Entry(LowByte(Xor(crc, Word(b)))), DropByte(crc))
  }

  /** The lookup itself, in a table that BuildTable made. */
  method LookUp(table: array<bv32>, crc: bv32, b: bv8) returns (r: bv32)
    requires IsTable(table)
    ensures r == Step(crc, b)
  {
    hide Entry, Xor, DropByte;
    var index := LowByte(Xor(crc, Word(b)));
    assert (index as int) as bv8 == index;
    r := Xor(table[index as int], DropByte(crc));
  }

  /** The register after a message. */
  function Running(crc: bv32, data: Octets): bv32 {
    if data == [] then crc else Step(Running(crc, data[..|data| - 1]), data[|data| - 1])
  }

  // The table form refines the bit-serial form, by linearity of the shift register.

  lemma XorAssociates(x: bv32, y: bv32, z: bv32)
    ensures Xor(Xor(x, y), z) == Xor(x, Xor(y, z))
    ensures Xor(x, y) == Xor(y, x)
    ensures Xor(x, Xor(x, y)) == y
  {
  }

  lemma HalfIsLinear(x: bv32, y: bv32)
    ensures Half(Xor(x, y)) == Xor(Half(x), Half(y))
  {
  }

  lemma OddIsLinear(x: bv32, y: bv32)
    ensures Odd(Xor(x, y)) <==> Odd(x) != Odd(y)
  {
  }

  lemma ShiftIsLinear(x: bv32, y: bv32)
    ensures Shift(Xor(x, y)) == Xor(Shift(x), Shift(y))
  {
    hide Xor, Half, Odd;
    HalfIsLinear(x, y);
    OddIsLinear(x, y);
    XorAssociates(POLYNOMIAL, Half(x), Half(y));
    XorAssociates(POLYNOMIAL, Half(y), Half(x));
    XorAssociates(Half(x), POLYNOMIAL, Half(y));
    XorAssociates(POLYNOMIAL, Half(x), Xor(POLYNOMIAL, Half(y)));
    XorAssociates(POLYNOMIAL, Xor(Half(x), Half(y)), 0);
  }

  lemma {:induction false} ShiftsAreLinear(x: bv32, y: bv32, k: nat)
    ensures Shifts(Xor(x, y), k) == Xor(Shifts(x, k), Shifts(y, k))
  {
    hide Xor, Shift;
    if k > 0 {
      ShiftsAreLinear(x, y, k - 1);
      ShiftIsLinear(Shifts(x, k - 1), Shifts(y, k - 1));
    }
  }

  /** k even steps in a row only move the word down. */
  lemma {:induction false} EvenShifts(x: bv32, k: nat)
    requires forall i :: 0 <= i < k ==> !Odd(Halves(x, i))
    ensures Shifts(x, k) == Halves(x, k)
  {
    hide Odd, Half, Xor;
    if k > 0 {
      EvenShifts(x, k - 1);
    }
  }

  lemma {:induction false} ZeroShifts(k: nat)
    ensures Shifts(0, k) == 0
  {
    if k > 0 {
      ZeroShifts(k - 1);
      assert Shift(0) == 0;
    }
  }

  lemma HalfOfShift(x: bv32)
    ensures Half(x) == x >> 1 && Half(x >> 1) == x >> 2 && Half(x >> 2) == x >> 3 && Half(x >> 3) == x >> 4
    ensures Half(x >> 4) == x >> 5 && Half(x >> 5) == x >> 6 && Half(x >> 6) == x >> 7 && Half(x >> 7) == x >> 8
  {
  }

  lemma EightHalves(x: bv32)
    ensures Halves(x, 1) == x >> 1 && Halves(x, 2) == x >> 2 && Halves(x, 3) == x >> 3 && Halves(x, 4) == x >> 4
    ensures Halves(x, 5) == x >> 5 && Halves(x, 6) == x >> 6 && Halves(x, 7) == x >> 7 && Halves(x, 8) == x >> 8
  {
    hide Half;
    HalfOfShift(x);
    assert Halves(x, 1) == Half(x);
    assert Halves(x, 2) == Half(Halves(x, 1));
    assert Halves(x, 3) == Half(Halves(x, 2));
    assert Halves(x, 4) == Half(Halves(x, 3));
    assert Halves(x, 5) == Half(Halves(x, 4));
    assert Halves(x, 6) == Half(Halves(x, 5));
    assert Halves(x, 7) == Half(Halves(x, 6));
  }

  lemma EvenBelow(x: bv32)
    requires x & 0xFF == 0
    ensures !Odd(x) && !Odd(x >> 1) && !Odd(x >> 2) && !Odd(x >> 3) && !Odd(x >> 4) && !Odd(x >> 5) && !Odd(x >> 6)
            && !Odd(x >> 7)
  {
  }

  /** A word whose low byte is clear only moves down. */
  lemma HighBytesMoveDown(x: bv32)
    ensures Shifts(HighBytes(x), 8) == DropByte(x)
  {
    hide Odd, Half, Shifts;
    var h := HighBytes(x);
    assert h & 0xFF == 0 && h >> 8 == DropByte(x);
    EvenBelow(h);
    EightHalves(h);
    assert Halves(h, 0) == h;
    EvenShifts(h, 8);
  }

  /** A word is its low byte and the rest. */
  lemma SplitLowByte(x: bv32)
    ensures Xor(Word(LowByte(x)), HighBytes(x)) == x
  {
  }

  lemma ByteOnlyTouchesLowBits(crc: bv32, b: bv8)
    ensures DropByte(Xor(crc, Word(b))) == DropByte(crc)
  {
  }

  /** A table lookup is eight shifts. */
  lemma StepIsShifts(crc: bv32, b: bv8)
    ensures Step(crc, b) == Shifts(Xor(crc, Word(b)), 8)
  {
    hide Xor, Word, LowByte, HighBytes, DropByte, Shifts;
    var x := Xor(crc, Word(b));
    SplitLowByte(x);
    ShiftsAreLinear(Word(LowByte(x)), HighBytes(x), 8);
    HighBytesMoveDown(x);
    ByteOnlyTouchesLowBits(crc, b);
  }

  // A byte may be fed bit by bit or folded in at once.

  lemma FeedBitShifts(c: bv32, bits: bv32)
    ensures Xor(FeedBit(c, bits), Half(bits)) == Shift(Xor(c, bits))
  {
    hide Xor, Half, Odd;
    HalfIsLinear(c, bits);
    OddIsLinear(c, bits);
    XorAssociates(POLYNOMIAL, Half(c), Half(bits));
  }

  lemma {:induction false} FeedBitsShift(c: bv32, b: bv8, k: nat)
    ensures Xor(FeedBits(c, b, k), Halves(Word(b), k)) == Shifts(Xor(c, Word(b)), k)
  {
    hide Xor, Half, Shift, FeedBit, Word;
    if k > 0 {
      FeedBitsShift(c, b, k - 1);
      FeedBitShifts(FeedBits(c, b, k - 1), Halves(Word(b), k - 1));
    }
  }

  lemma NothingAboveByte(x: bv32, b: bv8)
    ensures Xor(x, Word(b) >> 8) == x
  {
  }

  lemma StepIsSerial(crc: bv32, b: bv8)
    ensures Step(crc, b) == FeedBits(crc, b, 8)
  {
    hide Step, Xor, Word, FeedBits, Shifts;
    StepIsShifts(crc, b);
    FeedBitsShift(crc, b, 8);
    EightHalves(Word(b));
    NothingAboveByte(FeedBits(crc, b, 8), b);
  }

  /** The table-driven checksum of every message is the bit-serial one. */
  lemma {:induction false} RunningIsSerial(crc: bv32, data: Octets)
    ensures Running(crc, data) == SerialCrc(crc, data)
  {
    hide Step, FeedBits;
    if data != [] {
      RunningIsSerial(crc, data[..|data| - 1]);
      StepIsSerial(SerialCrc(crc, data[..|data| - 1]), data[|data| - 1]);
    }
  }

  // A step loses nothing: the top bit of the polynomial remembers the bit that fell out.

  lemma TopBitRemembers(x: bv32)
    ensures Half(x) & 0x8000_0000 == 0 && Xor(POLYNOMIAL, Half(x)) & 0x8000_0000 != 0
  {
  }

  lemma HalfAndOddDetermine(x: bv32, y: bv32)
    requires Half(x) == Half(y) && Odd(x) == Odd(y)
    ensures x == y
  {
  }

  lemma ShiftInjective(x: bv32, y: bv32)
    requires Shift(x) == Shift(y)
    ensures x == y
  {
    hide Xor, Half, Odd;
    TopBitRemembers(x);
    TopBitRemembers(y);
    XorAssociates(POLYNOMIAL, Half(x), 0);
    XorAssociates(POLYNOMIAL, Half(y), 0);
    HalfAndOddDetermine(x, y);
  }

  lemma {:induction false} ShiftsInjective(x: bv32, y: bv32, k: nat)
    requires Shifts(x, k) == Shifts(y, k)
    ensures x == y
  {
    hide Shift;
    if k > 0 {
      ShiftInjective(Shifts(x, k - 1), Shifts(y, k - 1));
      ShiftsInjective(x, y, k - 1);
    }
  }

  lemma WordInjective(x: bv8, y: bv8)
    requires Word(x) == Word(y)
    ensures x == y
  {
  }

  /** From one state, different bytes lead to different states. */
  lemma StepInjective(crc: bv32, b: bv8, b': bv8)
    requires Step(crc, b) == Step(crc, b')
    ensures b == b'
  {
    hide Xor, Word, Shifts, Step;
    StepIsShifts(crc, b);
    StepIsShifts(crc, b');
    ShiftsInjective(Xor(crc, Word(b)), Xor(crc, Word(b')), 8);
    XorAssociates(crc, Word(b), 0);
    XorAssociates(crc, Word(b'), 0);
    WordInjective(b, b');
  }

  /**
   Different states stay different whatever byte follows, so a checksum never merges two histories of equal
   continuation.
   */
  lemma StepKeepsStatesApart(crc: bv32, crc': bv32, b: bv8)
    requires Step(crc, b) == Step(crc', b)
    ensures crc == crc'
  {
    hide Xor, Word, Shifts, Step;
    StepIsShifts(crc, b);
    StepIsShifts(crc', b);
    ShiftsInjective(Xor(crc, Word(b)), Xor(crc', Word(b)), 8);
    XorAssociates(Word(b), crc, 0);
    XorAssociates(Word(b), crc', 0);
  }

  // The published check value.

  /** The digits 1 to 9. */
  const CHECK: Octets := [0x31, 0x32, 0x33, 0x34, 0x35, 0x36, 0x37, 0x38, 0x39]

  lemma FirstSteps()
    ensures Step(0xFFFF_FFFF, 0x31) == 0x7C23_1048 && Step(0x7C23_1048, 0x32) == 0xB0AC_BB32
            && Step(0xB0AC_BB32, 0x33) == 0x77B7_9C2D
  {
  }

  lemma MiddleSteps()
    ensures Step(0x77B7_9C2D, 0x34) == 0x641C_1F5C && Step(0x641C_1F5C, 0x35) == 0x340A_C5E3
            && Step(0x340A_C5E3, 0x36) == 0xF68D_2C9E
  {
  }

  lemma LastSteps()
    ensures Step(0xF68D_2C9E, 0x37) == 0xAFFC_9660 && Step(0xAFFC_9660, 0x38) == 0x651F_2550
            && Step(0x651F_2550, 0x39) == 0x340B_C6D9
  {
  }

  lemma OneMore(crc: bv32, data: Octets, n: nat)
    requires n < |data|
    ensures Running(crc, data[..n + 1]) == Step(Running(crc, data[..n]), data[n])
  {
    assert data[..n + 1][..n] == data[..n];
  }

  /** The check value of the checksum is the published one, 0xCBF43926 after the final complement. */
  lemma CheckValue()
    ensures Running(0xFFFF_FFFF, CHECK) == 0x340B_C6D9 && Xor(0x340B_C6D9, 0xFFFF_FFFF) == 0xCBF4_3926
  {
    hide Step, Running;
    FirstSteps();
    MiddleSteps();
    LastSteps();
    NothingRun(0xFFFF_FFFF);
    assert CHECK[..0] == [] && CHECK[..9] == CHECK;
    OneMore(0xFFFF_FFFF, CHECK, 0);
    OneMore(0xFFFF_FFFF, CHECK, 1);
    OneMore(0xFFFF_FFFF, CHECK, 2);
    OneMore(0xFFFF_FFFF, CHECK, 3);
    OneMore(0xFFFF_FFFF, CHECK, 4);
    OneMore(0xFFFF_FFFF, CHECK, 5);
    OneMore(0xFFFF_FFFF, CHECK, 6);
    OneMore(0xFFFF_FFFF, CHECK, 7);
    OneMore(0xFFFF_FFFF, CHECK, 8);
  }

  lemma NothingRun(crc: bv32)
    ensures Running(crc, []) == crc
  {
  }
}
