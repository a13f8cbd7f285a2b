/** The table-driven CRC-32 of the ZIP format (aisense-core, diagnostics.rs), against its bit-by-bit definition. */
module Crc32 {

  const POLYNOMIAL: bv32 := 0xEDB8_8320

  // ---- The reflected shift register, one message bit at a time ----

  // The machine operations, named so that proofs can leave them uninterpreted.

  function Xor(x: bv32, y: bv32): bv32 { x ^ y }

  function Down(x: bv32): bv32 { x >> 1 }

  function DownByte(x: bv32): bv32 { x >> 8 }

  predicate Odd(x: bv32) { x & 1 == 1 }

  function LowBit(x: bv32): bv32 { x & 1 }

  function LowByte(x: bv32): bv8 { (x & 0xFF) as bv8 }

  /** One bit enters: shift right, and feed the polynomial back when the bits differ. */
  function ShiftIn(register: bv32, bit: bv32): bv32 {
    if LowBit(register) != bit then Xor(POLYNOMIAL, Down(register)) else Down(register)
  }

  /** The low `n` bits of `b`, lowest first. */
  function ShiftInBits(register: bv32, b: bv32, n: nat): bv32
    decreases n
  {
    if n == 0 then register else ShiftInBits(ShiftIn(register, LowBit(b)), Down(b), n - 1)
  }

  function Widened(b: bv8): bv32 { b as bv32 }

  function ShiftInAll(register: bv32, data: seq<bv8>): bv32
    decreases |data|
  {
    if data == [] then register else ShiftInAll(ShiftInBits(register, Widened(data[0]), 8), data[1..])
  }

  /** CRC-32 as the format defines it: preset to ones, complemented at the end. */
  function Crc(data: seq<bv8>): bv32 {
    !ShiftInAll(0xFFFF_FFFF, data)
  }

  // ---- The table ----

  function Halve(c: bv32): bv32 {
    if Odd(c) then Xor(POLYNOMIAL, Down(c)) else Down(c)
  }

  function Halved(c: bv32, n: nat): bv32
    decreases n
  {
    if n == 0 then c else Halved(Halve(c), n - 1)
  }

  ghost predicate IsTable(table: seq<bv32>) {
    |table| == 256 && forall i: bv8 :: table[i as int] == Halved(Widened(i), 8)
  }

  method MakeTable() returns (table: array<bv32>)
    ensures fresh(table) && IsTable(table[..])
  {
    hide Halved, Widened;
    table := new bv32[256](_ => 0);
    var i := 0;
    while i < 256
      invariant 0 <= i <= 256
      invariant forall k: bv8 :: k as int < i ==> table[k as int] == Halved(Widened(k), 8)
    {
      var slot := i as bv8;
      table[i] := TableEntry(slot);
      i := i + 1;
    }
  }

  /** The inner loop: eight steps on the entry's index. */
  method TableEntry(slot: bv8) returns (c: bv32)
    ensures c == Halved(Widened(slot), 8)
  {
    hide Xor, Down, Odd, Widened;
    c := Widened(slot);
    for n := 0 to 8
      invariant Halved(c, 8 - n) == Halved(Widened(slot), 8)
    {
      c := if Odd(c) then Xor(POLYNOMIAL, Down(c)) else Down(c);
    }
  }

  /** One table lookup per byte. */
  method TableCrc(data: seq<bv8>) returns (crc: bv32)
    ensures crc == Crc(data)
  {
    hide Xor, DownByte, LowByte, ShiftInBits, Halved, Widened;
    var table := MakeTable();
    var register: bv32 := 0xFFFF_FFFF;
    for i := 0 to |data|
      invariant IsTable(table[..])
      invariant ShiftInAll(register, data[i..]) == ShiftInAll(0xFFFF_FFFF, data)
    {
      var index := LowByte(Xor(register, Widened(data[i])));
      ByteAtOnce(register, data[i]);
      assert data[i..][1..] == data[i + 1..];
      assert table[index as int] == table[..][index as int];
      register := Xor(table[index as int], DownByte(register));
    }
    return !register;
  }

  // ---- Why a byte can be done at once ----

  lemma XorOfShifts(x: bv32, y: bv32)
    ensures Down(Xor(x, y)) == Xor(Down(x), Down(y))
    ensures Odd(Xor(x, y)) <==> (Odd(x) != Odd(y))
  {
  }

  lemma XorAssociates(x: bv32, y: bv32, z: bv32)
    ensures Xor(Xor(x, y), z) == Xor(x, Xor(y, z))
  {
  }

  lemma XorCommutes(x: bv32, y: bv32)
    ensures Xor(x, y) == Xor(y, x)
  {
  }

  lemma XorTwice(x: bv32, y: bv32)
    ensures Xor(x, Xor(x, y)) == y
  {
  }

  lemma XorCancels(p: bv32, a: bv32, b: bv32)
    ensures Xor(Xor(p, a), Xor(p, b)) == Xor(a, b)
    ensures Xor(Xor(p, a), b) == Xor(p, Xor(a, b))
    ensures Xor(a, Xor(p, b)) == Xor(p, Xor(a, b))
  {
    hide Xor;
    XorAssociates(p, a, b);
    XorAssociates(a, p, b);
    XorCommutes(a, p);
    XorAssociates(a, p, Xor(p, b));
    XorTwice(p, b);
  }

  lemma HalveIsLinear(x: bv32, y: bv32)
    ensures Halve(Xor(x, y)) == Xor(Halve(x), Halve(y))
  {
    hide Xor, Down, Odd;
    XorOfShifts(x, y);
    XorCancels(POLYNOMIAL, Down(x), Down(y));
  }

  lemma {:induction false} HalvedIsLinear(x: bv32, y: bv32, n: nat)
    ensures Halved(Xor(x, y), n) == Xor(Halved(x, n), Halved(y, n))
    decreases n
  {
    hide Halve, Xor;
    if n > 0 {
      HalveIsLinear(x, y);
      HalvedIsLinear(Halve(x), Halve(y), n - 1);
    }
  }

  /** `n` zero bits at the bottom: that many steps only shift. */
  predicate ZeroBelow(y: bv32, n: nat)
    decreases n
  {
    n == 0 || (!Odd(y) && ZeroBelow(Down(y), n - 1))
  }

  function DownBy(y: bv32, n: nat): bv32
    decreases n
  {
    if n == 0 then y else DownBy(Down(y), n - 1)
  }

  lemma {:induction false} HalvedHighBits(y: bv32, n: nat)
    requires ZeroBelow(y, n)
    ensures Halved(y, n) == DownBy(y, n)
    decreases n
  {
    hide Odd, Down, Xor;
    if n > 0 {
      HalvedHighBits(Down(y), n - 1);
    }
  }

  lemma DownEight(y: bv32)
    ensures DownBy(y, 8) == DownByte(y)
  {
    var h := Down(Down(Down(Down(y))));
    assert DownBy(y, 8) == DownBy(Down(Down(y)), 6) == DownBy(h, 4);
    assert DownBy(h, 4) == DownBy(Down(Down(h)), 2);
  }

  function HighBytes(x: bv32): bv32 { x & 0xFFFF_FF00 }

  lemma HighBytesAreZeroBelow(x: bv32)
    ensures ZeroBelow(HighBytes(x), 8)
  {
    var y := HighBytes(x);
    var h := Down(Down(Down(Down(y))));
    assert ZeroBelow(h, 4) by { assert ZeroBelow(Down(Down(h)), 2); }
    assert ZeroBelow(Down(Down(y)), 6);
  }

  lemma SplitBytes(x: bv32)
    ensures x == Xor(Widened(LowByte(x)), HighBytes(x)) && DownByte(HighBytes(x)) == DownByte(x)
  {
  }

  /** Only the low byte is looked up; the rest of the register shifts down. */
  lemma HalvedByLowByte(x: bv32)
    ensures Halved(x, 8) == Xor(Halved(Widened(LowByte(x)), 8), DownByte(x))
  {
    hide *;
    SplitBytes(x);
    HalvedIsLinear(Widened(LowByte(x)), HighBytes(x), 8);
    HighBytesAreZeroBelow(x);
    HalvedHighBits(HighBytes(x), 8);
    DownEight(HighBytes(x));
  }

  predicate Fits(b: bv32, n: nat)
    decreases n
  {
    if n == 0 then b == 0 else Fits(Down(b), n - 1)
  }

  lemma ByteFits(b: bv8)
    ensures Fits(Widened(b), 8)
  {
    var w := Widened(b);
    var h := Down(Down(Down(Down(w))));
    assert Fits(w, 8) == Fits(Down(Down(w)), 6) && Fits(Down(Down(w)), 6) == Fits(h, 4)
        && Fits(h, 4) == Fits(Down(Down(h)), 2);
    assert Down(Down(Down(Down(h)))) == 0;
  }

  lemma OneBit(register: bv32, b: bv32)
    ensures Halve(Xor(register, b)) == Xor(ShiftIn(register, LowBit(b)), Down(b))
  {
    XorOfShifts(register, b);
    LowBitIsOdd(register);
    LowBitIsOdd(b);
    hide Xor, Down, Odd, LowBit;
    XorCancels(POLYNOMIAL, Down(register), Down(b));
  }

  lemma LowBitIsOdd(x: bv32)
    ensures LowBit(x) == if Odd(x) then 1 else 0
  {
  }

  /** Feeding bits one by one is xoring them in first and then shifting. */
  lemma {:induction false} BitsAtOnce(register: bv32, b: bv32, n: nat)
    requires Fits(b, n)
    ensures ShiftInBits(register, b, n) == Halved(Xor(register, b), n)
    decreases n
  {
    hide Halve, ShiftIn, Down, LowBit;
    if n > 0 {
      OneBit(register, b);
      BitsAtOnce(ShiftIn(register, LowBit(b)), Down(b), n - 1);
    }
  }

  lemma ByteAtOnce(register: bv32, b: bv8)
    ensures ShiftInBits(register, Widened(b), 8)
            == Xor(Halved(Widened(LowByte(Xor(register, Widened(b)))), 8), DownByte(register))
  {
    hide *;
    ByteFits(b);
    BitsAtOnce(register, Widened(b), 8);
    HalvedByLowByte(Xor(register, Widened(b)));
    ByteDoesNotReachUp(register, b);
  }

  lemma ByteDoesNotReachUp(register: bv32, b: bv8)
    ensures DownByte(Xor(register, Widened(b))) == DownByte(register)
  {
  }

  // ---- What the checksum is for ----

  lemma HalveIsInjective(x: bv32, y: bv32)
    requires Halve(x) == Halve(y)
    ensures x == y
  {
  }

  lemma {:induction false} HalvedIsInjective(x: bv32, y: bv32, n: nat)
    requires Halved(x, n) == Halved(y, n)
    ensures x == y
    decreases n
  {
    hide Halve;
    if n > 0 {
      HalvedIsInjective(Halve(x), Halve(y), n - 1);
      HalveIsInjective(x, y);
    }
  }

  lemma XorIsInjective(r: bv32, s: bv32, b: bv8, d: bv8)
    ensures Xor(r, Widened(b)) == Xor(s, Widened(b)) ==> r == s
    ensures Xor(r, Widened(b)) == Xor(r, Widened(d)) ==> b == d
  {
  }

  /** One byte step loses nothing: neither the register before it nor the byte. */
  lemma ByteStepIsInjective(r: bv32, s: bv32, b: bv8, d: bv8)
    ensures ShiftInBits(r, Widened(b), 8) == ShiftInBits(s, Widened(b), 8) ==> r == s
    ensures ShiftInBits(r, Widened(b), 8) == ShiftInBits(r, Widened(d), 8) ==> b == d
  {
    hide *;
    ByteFits(b);
    ByteFits(d);
    BitsAtOnce(r, Widened(b), 8);
    BitsAtOnce(s, Widened(b), 8);
    BitsAtOnce(r, Widened(d), 8);
    XorIsInjective(r, s, b, d);
    if ShiftInBits(r, Widened(b), 8) == ShiftInBits(s, Widened(b), 8) {
      HalvedIsInjective(Xor(r, Widened(b)), Xor(s, Widened(b)), 8);
    }
    if ShiftInBits(r, Widened(b), 8) == ShiftInBits(r, Widened(d), 8) {
      HalvedIsInjective(Xor(r, Widened(b)), Xor(r, Widened(d)), 8);
    }
  }

  /** Registers that differ keep differing, whatever follows. */
  lemma {:induction false} DifferenceSurvives(r: bv32, s: bv32, data: seq<bv8>)
    requires r != s
    ensures ShiftInAll(r, data) != ShiftInAll(s, data)
    decreases |data|
  {
    hide ShiftInBits, Widened;
    if data != [] {
      ByteStepIsInjective(r, s, data[0], data[0]);
      DifferenceSurvives(ShiftInBits(r, Widened(data[0]), 8), ShiftInBits(s, Widened(data[0]), 8), data[1..]);
    }
  }

  lemma {:induction false} ShiftInAllConcat(register: bv32, a: seq<bv8>, b: seq<bv8>)
    ensures ShiftInAll(register, a + b) == ShiftInAll(ShiftInAll(register, a), b)
    decreases |a|
  {
    hide ShiftInBits, Widened;
    if a == [] {
      assert a + b == b;
    } else {
      assert (a + b)[0] == a[0] && (a + b)[1..] == a[1..] + b;
      ShiftInAllConcat(ShiftInBits(register, Widened(a[0]), 8), a[1..], b);
    }
  }

  lemma AroundAByte(before: seq<bv8>, b: bv8, after: seq<bv8>)
    ensures ShiftInAll(0xFFFF_FFFF, before + [b] + after)
            == ShiftInAll(ShiftInBits(ShiftInAll(0xFFFF_FFFF, before), Widened(b), 8), after)
  {
    hide ShiftInBits, Widened;
    var r := ShiftInAll(0xFFFF_FFFF, before);
    ShiftInAllConcat(0xFFFF_FFFF, before + [b], after);
    ShiftInAllConcat(0xFFFF_FFFF, before, [b]);
    assert ShiftInAll(r, [b]) == ShiftInAll(ShiftInBits(r, Widened(b), 8), []);
  }

  /** Changing any one byte of a file changes its checksum. */
  lemma ChangedByteIsDetected(before: seq<bv8>, x: bv8, y: bv8, after: seq<bv8>)
    requires x != y
    ensures Crc(before + [x] + after) != Crc(before + [y] + after)
  {
    hide ShiftInAll, ShiftInBits, Widened;
    var r := ShiftInAll(0xFFFF_FFFF, before);
    AroundAByte(before, x, after);
    AroundAByte(before, y, after);
    ByteStepIsInjective(r, r, x, y);
    DifferenceSurvives(ShiftInBits(r, Widened(x), 8), ShiftInBits(r, Widened(y), 8), after);
  }

  /** The published values, of nothing and of "a". */
  lemma PublishedChecksums()
    ensures Crc([]) == 0 && Crc([97]) == 0xE8B7_BE43
  {
    var a: seq<bv8> := [97];
    assert a[1..] == [];
    assert Widened(97) == 0x61;
    BitsOfA();
    hide ShiftInBits, Widened;
    assert ShiftInAll(0xFFFF_FFFF, a) == ShiftInAll(ShiftInBits(0xFFFF_FFFF, Widened(97), 8), []);
  }

  lemma BitsOfA()
    ensures ShiftInBits(0xFFFF_FFFF, 0x61, 8) == 0x174841BC
  {
    hide ShiftInBits;
    OneShift(0xFFFFFFFF, 0x61, 8, 0x7FFFFFFF, 0x30);
    OneShift(0x7FFFFFFF, 0x30, 7, 0xD2477CDF, 0x18);
    OneShift(0xD2477CDF, 0x18, 6, 0x849B3D4F, 0x0C);
    OneShift(0x849B3D4F, 0x0C, 5, 0xAFF51D87, 0x06);
    OneShift(0xAFF51D87, 0x06, 4, 0xBA420DE3, 0x03);
    OneShift(0xBA420DE3, 0x03, 3, 0x5D2106F1, 0x01);
    OneShift(0x5D2106F1, 0x01, 2, 0x2E908378, 0x00);
    OneShift(0x2E908378, 0x00, 1, 0x174841BC, 0x00);
    NoMoreBits(0x174841BC, 0);
  }

  lemma OneShift(register: bv32, b: bv32, n: nat, next: bv32, rest: bv32)
    requires n > 0 && ShiftIn(register, LowBit(b)) == next && Down(b) == rest
    ensures ShiftInBits(register, b, n) == ShiftInBits(next, rest, n - 1)
  {
    hide ShiftIn, LowBit, Down;
  }

  lemma NoMoreBits(register: bv32, b: bv32)
    ensures ShiftInBits(register, b, 0) == register
  {
  }
}
