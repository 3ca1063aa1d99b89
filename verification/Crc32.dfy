/**
 The reflected CRC-32 of section 8 of RFC 1952 as a bit-serial shift register.  Everything here
 is a consequence of two facts about one step of the register: it is linear over exclusive or,
 and it is injective because the polynomial's top bit is set.
 */
module Crc32 {

  const POLYNOMIAL: bv32 := 0xEDB88320
  const ONES: bv32 := 0xFFFF_FFFF
  const RESIDUE: bv32 := 0x2144DF1C

  // ---------------------------------------------------------------- the register

  function Xor(a: bv32, b: bv32): bv32 { a ^ b }

  function Shift(s: bv32): bv32 { (s >> 1) ^ (if s & 1 == 1 then POLYNOMIAL else 0) }

  function ShiftN(s: bv32, n: nat): bv32
    decreases n
  {
    if n == 0 then s else ShiftN(Shift(s), n - 1)
  }

  function Bit(b: bool): bv32 { if b then 1 else 0 }

  // The register after the bits have been fed to it, first bit first.
  function Feed(s: bv32, bits: seq<bool>): bv32
    decreases |bits|
  {
    if bits == [] then s else Feed(Shift(Xor(s, Bit(bits[0]))), bits[1..])
  }

  // The n lowest binary digits of w, least significant first.
  function Digits(w: bv32, n: nat): (bits: seq<bool>)
    ensures |bits| == n
    decreases n
  {
    if n == 0 then [] else [IsOdd(w)] + Digits(Half(w), n - 1)
  }

  predicate IsOdd(w: bv32) { w & 1 == 1 }

  function Half(w: bv32): bv32 { w >> 1 }

  function HalfN(w: bv32, n: nat): bv32
    decreases n
  {
    if n == 0 then w else HalfN(Half(w), n - 1)
  }

  function BitsOfByte(b: bv8): (bits: seq<bool>)
    ensures |bits| == 8
  {
    Digits(b as bv32, 8)
  }

  function BitsOf(data: seq<bv8>): (bits: seq<bool>)
    ensures |bits| == 8 * |data|
  {
    if data == [] then [] else BitsOfByte(data[0]) + BitsOf(data[1..])
  }

  // The checksum: the register starts at all ones and its final content is complemented.
  function Crc(data: seq<bv8>): bv32 { Xor(Feed(ONES, BitsOf(data)), ONES) }

  // ---------------------------------------------------------------- one step

  lemma XorCommutes(a: bv32, b: bv32)
    ensures Xor(a, b) == Xor(b, a)
  {
    assert a ^ b == b ^ a;
  }

  lemma XorUnit(a: bv32)
    ensures Xor(a, a) == 0 && Xor(a, 0) == a
  {
    assert a ^ a == 0 && a ^ 0 == a;
  }

  // Adding the same word twice changes nothing.
  lemma XorCancels(a: bv32, b: bv32)
    ensures Xor(Xor(a, b), b) == a
  {
    XorAssociative(a, b, b);
    XorUnit(a);
    XorUnit(b);
    hide Xor;
  }

  lemma XorAssociative(a: bv32, b: bv32, c: bv32)
    ensures Xor(Xor(a, b), c) == Xor(a, Xor(b, c))
  {
    assert (a ^ b) ^ c == a ^ (b ^ c);
  }

  lemma XorSwap(a: bv32, b: bv32, c: bv32, d: bv32)
    ensures Xor(Xor(a, b), Xor(c, d)) == Xor(Xor(a, c), Xor(b, d))
  {
    XorAssociative(a, b, Xor(c, d));
    XorAssociative(b, c, d);
    XorAssociative(c, b, d);
    XorAssociative(a, c, Xor(b, d));
    assert b ^ c == c ^ b;
    hide Xor;
  }

  lemma ShiftEven(a: bv32, b: bv32)
    requires a & 1 == 0
    ensures Shift(a ^ b) == Shift(a) ^ Shift(b)
  {
    assert b & 1 == 0 || b & 1 == 1;
    assert (a ^ b) & 1 == b & 1;
  }

  lemma ShiftOdd(a: bv32, b: bv32)
    requires a & 1 == 1 && b & 1 == 1
    ensures Shift(a ^ b) == Shift(a) ^ Shift(b)
  {
    assert (a ^ b) & 1 == 0;
  }

  lemma ShiftLinear(a: bv32, b: bv32)
    ensures Shift(Xor(a, b)) == Xor(Shift(a), Shift(b))
  {
    assert a & 1 == 0 || a & 1 == 1;
    assert b & 1 == 0 || b & 1 == 1;
    assert a ^ b == b ^ a;
    if a & 1 == 0 {
      ShiftEven(a, b);
    } else if b & 1 == 0 {
      ShiftEven(b, a);
      XorCommutes(Shift(a), Shift(b));
    } else {
      ShiftOdd(a, b);
    }
  }

  lemma ShiftInjective(a: bv32, b: bv32)
    requires Shift(a) == Shift(b)
    ensures a == b
  {
  }

  // ---------------------------------------------------------------- many steps

  lemma {:induction false} ShiftNLinear(a: bv32, b: bv32, n: nat)
    ensures ShiftN(Xor(a, b), n) == Xor(ShiftN(a, n), ShiftN(b, n))
    decreases n
  {
    hide Shift, Xor;
    if n > 0 {
      ShiftLinear(a, b);
      ShiftNLinear(Shift(a), Shift(b), n - 1);
    }
  }

  lemma {:induction false} ShiftNInjective(a: bv32, b: bv32, n: nat)
    requires ShiftN(a, n) == ShiftN(b, n)
    ensures a == b
    decreases n
  {
    hide Shift;
    if n > 0 {
      ShiftNInjective(Shift(a), Shift(b), n - 1);
      ShiftInjective(a, b);
    }
  }

  lemma {:induction false} ShiftNAdd(s: bv32, m: nat, n: nat)
    ensures ShiftN(s, m + n) == ShiftN(ShiftN(s, m), n)
    decreases m
  {
    hide Shift;
    if m > 0 {
      ShiftNAdd(Shift(s), m - 1, n);
    }
  }

  lemma {:induction false} FeedConcat(s: bv32, a: seq<bool>, b: seq<bool>)
    ensures Feed(s, a + b) == Feed(Feed(s, a), b)
    decreases |a|
  {
    hide Shift, Xor, Bit;
    if a == [] {
      assert a + b == b;
    } else {
      assert (a + b)[1..] == a[1..] + b;
      FeedConcat(Shift(Xor(s, Bit(a[0]))), a[1..], b);
    }
  }

  lemma {:induction false} BitsConcat(a: seq<bv8>, b: seq<bv8>)
    ensures BitsOf(a + b) == BitsOf(a) + BitsOf(b)
  {
    hide BitsOfByte;
    if a == [] {
      assert a + b == b;
    } else {
      assert (a + b)[1..] == a[1..] + b;
      BitsConcat(a[1..], b);
    }
  }

  /** The state after a ++ b is the state after b, started from the state after a. */
  lemma Streaming(s: bv32, a: seq<bv8>, b: seq<bv8>)
    ensures Feed(s, BitsOf(a + b)) == Feed(Feed(s, BitsOf(a)), BitsOf(b))
  {
    BitsConcat(a, b);
    FeedConcat(s, BitsOf(a), BitsOf(b));
  }

  // Equal bits keep different registers different.
  lemma {:induction false} FeedInjective(s: bv32, t: bv32, bits: seq<bool>)
    requires Feed(s, bits) == Feed(t, bits)
    ensures s == t
    decreases |bits|
  {
    hide Shift, Xor, Bit;
    if bits != [] {
      var b := Bit(bits[0]);
      FeedInjective(Shift(Xor(s, b)), Shift(Xor(t, b)), bits[1..]);
      ShiftInjective(Xor(s, b), Xor(t, b));
      XorCancels(s, b);
      XorCancels(t, b);
    }
  }

  function XorBits(a: seq<bool>, b: seq<bool>): (c: seq<bool>)
    requires |a| == |b|
    ensures |c| == |a|
  {
    seq(|a|, i requires 0 <= i < |a| => a[i] != b[i])
  }

  lemma BitXor(a: bool, b: bool)
    ensures Bit(a != b) == Xor(Bit(a), Bit(b))
  {
  }

  // The register is linear in start and input together.
  lemma {:induction false} FeedLinear(s: bv32, t: bv32, a: seq<bool>, b: seq<bool>)
    requires |a| == |b|
    ensures Feed(Xor(s, t), XorBits(a, b)) == Xor(Feed(s, a), Feed(t, b))
    decreases |a|
  {
    hide Shift, Xor, Bit;
    if a != [] {
      var c := XorBits(a, b);
      assert c[1..] == XorBits(a[1..], b[1..]);
      BitXor(a[0], b[0]);
      XorSwap(s, t, Bit(a[0]), Bit(b[0]));
      ShiftLinear(Xor(s, Bit(a[0])), Xor(t, Bit(b[0])));
      FeedLinear(Shift(Xor(s, Bit(a[0]))), Shift(Xor(t, Bit(b[0]))), a[1..], b[1..]);
    }
  }

  // ---------------------------------------------------------------- a word at a time

  function Doubled(w: bv32): bv32 { w << 1 }

  // The number whose binary digits the bits are, least significant first.
  function Word(bits: seq<bool>): bv32 {
    if bits == [] then 0 else Xor(Bit(bits[0]), Doubled(Word(bits[1..])))
  }

  // w has no digit beyond the first n.
  predicate Fits(w: bv32, n: nat)
    requires n <= 32
  {
    w & (ONES << n) == 0
  }

  lemma FitsDoubled(w: bv32, n: nat, b: bool)
    requires 1 <= n <= 32 && Fits(w, n - 1)
    ensures Fits(Xor(Bit(b), Doubled(w)), n)
  {
    ShiftedIn(w, n, Bit(b));
  }

  lemma ShiftedIn(w: bv32, n: nat, b: bv32)
    requires 1 <= n <= 32 && b <= 1 && w & (ONES << (n - 1)) == 0
    ensures (b ^ (w << 1)) & (ONES << n) == 0
  {
  }

  lemma TopBitClear(w: bv32, n: nat)
    requires n <= 31 && Fits(w, n)
    ensures w & 0x8000_0000 == 0
  {
  }

  lemma HalfOf(w: bv32, b: bv32)
    requires w & 0x8000_0000 == 0 && b <= 1
    ensures (b ^ (w << 1)) >> 1 == w && (b ^ (w << 1)) & 1 == b
  {
  }

  lemma {:induction false} WordFits(bits: seq<bool>)
    requires |bits| <= 32
    ensures Fits(Word(bits), |bits|)
  {
    hide Fits, Xor, Bit, Doubled;
    if bits == [] {
      NothingFits();
    } else {
      WordFits(bits[1..]);
      FitsDoubled(Word(bits[1..]), |bits|, bits[0]);
    }
  }

  lemma NothingFits()
    ensures Fits(0, 0)
  {
  }

  // Doubling and adding a bit loses neither, while the top bit is clear.
  lemma DoubledInjective(a: bool, v: bv32, b: bool, w: bv32)
    requires v & 0x8000_0000 == 0 && w & 0x8000_0000 == 0
    requires Xor(Bit(a), Doubled(v)) == Xor(Bit(b), Doubled(w))
    ensures a == b && v == w
  {
    HalfOf(v, Bit(a));
    HalfOf(w, Bit(b));
  }

  lemma {:induction false} WordInjective(a: seq<bool>, b: seq<bool>)
    requires |a| == |b| <= 32 && Word(a) == Word(b)
    ensures a == b
  {
    hide Fits, Xor, Bit, Doubled;
    if a != [] {
      WordFits(a[1..]);
      WordFits(b[1..]);
      TopBitClear(Word(a[1..]), |a| - 1);
      TopBitClear(Word(b[1..]), |b| - 1);
      DoubledInjective(a[0], Word(a[1..]), b[0], Word(b[1..]));
      WordInjective(a[1..], b[1..]);
      assert a == [a[0]] + a[1..] && b == [b[0]] + b[1..];
    }
  }

  // An even word is halved by a step: no feedback.
  lemma ShiftDoubled(w: bv32)
    requires w & 0x8000_0000 == 0
    ensures Shift(Doubled(w)) == w
  {
    assert (w << 1) & 1 == 0;
    HalfOf(w, 0);
    assert 0 ^ (w << 1) == w << 1;
  }

  /** Feeding up to 32 bits one at a time is the same as adding them all to the register and then
      stepping it that many times. */
  lemma {:induction false} FeedWord(s: bv32, bits: seq<bool>)
    requires |bits| <= 32
    ensures Feed(s, bits) == ShiftN(Xor(s, Word(bits)), |bits|)
    decreases |bits|
  {
    hide Fits, Shift, Xor, Bit, Doubled;
    if bits == [] {
      XorUnit(s);
    } else {
      var b, rest := Bit(bits[0]), Word(bits[1..]);
      WordFits(bits[1..]);
      TopBitClear(rest, |bits| - 1);
      ShiftDoubled(rest);
      XorAssociative(s, b, Doubled(rest));
      ShiftLinear(Xor(s, b), Doubled(rest));
      FeedWord(Shift(Xor(s, b)), bits[1..]);
    }
  }

  // ---------------------------------------------------------------- the table

  // What one byte contributes: the entry of the lookup table for it.
  function Entry(b: bv32): bv32 { ShiftN(b, 8) }

  lemma ShiftNDoubled(w: bv32, n: nat)
    requires w & 0x8000_0000 == 0
    ensures ShiftN(Doubled(w), n + 1) == ShiftN(w, n)
  {
    ShiftDoubled(w);
    hide Shift, Doubled;
  }

  lemma Doubled4(w: bv32)
    requires w & 0xF000_0000 == 0
    ensures ShiftN(Doubled(Doubled(Doubled(Doubled(w)))), 4) == w
  {
    DoublingRoom(w);
    hide Doubled, Shift;
    var d1 := Doubled(w);
    var d2 := Doubled(d1);
    var d3 := Doubled(d2);
    ShiftNDoubled(d3, 3);
    ShiftNDoubled(d2, 2);
    ShiftNDoubled(d1, 1);
    ShiftNDoubled(w, 0);
  }

  lemma DoublingRoom(w: bv32)
    requires w & 0xF000_0000 == 0
    ensures w & 0x8000_0000 == 0 && Doubled(w) & 0x8000_0000 == 0
    ensures Doubled(Doubled(w)) & 0x8000_0000 == 0 && Doubled(Doubled(Doubled(w))) & 0x8000_0000 == 0
  {
  }

  function Nibble(w: bv32): bv32 { Doubled(Doubled(Doubled(Doubled(w)))) }

  lemma NibbleUp(w: bv32)
    requires w & 0xF000_0000 == 0
    ensures ShiftN(Nibble(w), 4) == w
  {
    hide Doubled, Shift, ShiftN;
    Doubled4(w);
  }

  lemma NibblesOf(x: bv32)
    ensures (x >> 8) & 0xF000_0000 == 0 && Nibble(x >> 8) & 0xF000_0000 == 0
    ensures Nibble(Nibble(x >> 8)) == x & 0xFFFF_FF00
  {
  }

  function LowByte(x: bv32): bv32 { x & 0xFF }

  function Cleared(x: bv32): bv32 { x & 0xFFFF_FF00 }

  function Lowered(x: bv32): bv32 { x >> 8 }

  // A word without its low byte moves down by eight places unchanged.
  lemma HighPart(x: bv32)
    ensures ShiftN(Cleared(x), 8) == Lowered(x)
  {
    NibblesOf(x);
    hide Nibble, ShiftN;
    NibbleUp(x >> 8);
    NibbleUp(Nibble(x >> 8));
    ShiftNAdd(x & 0xFFFF_FF00, 4, 4);
  }

  lemma SplitLowByte(x: bv32)
    ensures Xor(Cleared(x), LowByte(x)) == x
  {
  }

  /** Eight steps of the register are one step of the table: the low byte is looked up and the rest
      moves down. */
  lemma EightSteps(x: bv32)
    ensures ShiftN(x, 8) == Xor(Lowered(x), Entry(LowByte(x)))
  {
    hide Xor, ShiftN, Cleared, LowByte, Lowered;
    SplitLowByte(x);
    HighPart(x);
    ShiftNLinear(Cleared(x), LowByte(x), 8);
  }

  // A register fed its own lowest digit is halved.
  lemma OwnStep(w: bv32)
    ensures Shift(Xor(w, Bit(IsOdd(w)))) == Half(w)
  {
    if w & 1 == 1 {
      assert (w ^ 1) & 1 == 0;
      assert (w ^ 1) >> 1 == w >> 1;
    } else {
      assert w & 1 == 0;
      XorUnit(w);
    }
  }

  lemma {:induction false} FeedOwn(w: bv32, n: nat)
    ensures Feed(w, Digits(w, n)) == HalfN(w, n)
    decreases n
  {
    hide Shift, Xor, Bit, IsOdd, Half;
    if n > 0 {
      OwnStep(w);
      FeedOwn(Half(w), n - 1);
      assert Digits(w, n)[1..] == Digits(Half(w), n - 1);
    }
  }

  function Zeros(n: nat): (bits: seq<bool>)
    ensures |bits| == n
  {
    seq(n, i => false)
  }

  lemma {:induction false} FeedZeros(s: bv32, n: nat)
    ensures Feed(s, Zeros(n)) == ShiftN(s, n)
    decreases n
  {
    if n > 0 {
      assert Bit(false) == 0;
      hide Shift, Xor, Bit;
      XorUnit(s);
      assert Zeros(n)[1..] == Zeros(n - 1);
      FeedZeros(Shift(s), n - 1);
    }
  }

  /** Feeding the digits of w is adding w to the register, n steps, and adding what is left of w. */
  lemma FeedDigits(s: bv32, w: bv32, n: nat)
    ensures Feed(s, Digits(w, n)) == Xor(ShiftN(Xor(s, w), n), HalfN(w, n))
  {
    hide Shift, Xor, Bit, HalfN;
    XorCancels(s, w);
    FeedZeros(Xor(s, w), n);
    FeedOwn(w, n);
    assert XorBits(Zeros(n), Digits(w, n)) == Digits(w, n);
    FeedLinear(Xor(s, w), w, Zeros(n), Digits(w, n));
  }

  lemma {:induction false} HalfNAdd(w: bv32, m: nat, n: nat)
    ensures HalfN(w, m + n) == HalfN(HalfN(w, m), n)
    decreases m
  {
    hide Half;
    if m > 0 {
      HalfNAdd(Half(w), m - 1, n);
    }
  }

  function Low4(w: bv32): bv32 { w >> 4 }

  lemma HalfFour(w: bv32)
    ensures HalfN(w, 4) == Low4(w)
  {
    assert HalfN(w, 4) == HalfN(Half(Half(w)), 2);
    assert HalfN(Half(Half(w)), 2) == Half(Half(Half(Half(w))));
  }

  lemma Low4Twice(w: bv32)
    ensures Low4(Low4(w)) == Lowered(w)
  {
  }

  lemma HalfByte(w: bv32)
    ensures HalfN(w, 8) == Lowered(w)
  {
    hide HalfN, Low4, Lowered;
    HalfFour(w);
    HalfFour(Low4(w));
    Low4Twice(w);
    HalfNAdd(w, 4, 4);
  }

  lemma NoFifthByte(w: bv32)
    ensures Lowered(Lowered(Lowered(Lowered(w)))) == 0
  {
  }

  lemma HalfBytes(w: bv32)
    ensures HalfN(w, 8) == Lowered(w) && HalfN(w, 16) == Lowered(Lowered(w))
    ensures HalfN(w, 24) == Lowered(Lowered(Lowered(w))) && HalfN(w, 32) == 0
  {
    hide HalfN, Lowered;
    HalfByte(w);
    HalfByte(Lowered(w));
    HalfByte(Lowered(Lowered(w)));
    HalfByte(Lowered(Lowered(Lowered(w))));
    NoFifthByte(w);
    HalfNAdd(w, 8, 8);
    HalfNAdd(w, 16, 8);
    HalfNAdd(w, 24, 8);
  }

  /** One byte: the bit-serial register and the table step agree. */
  lemma FeedByte(s: bv32, b: bv8)
    ensures var x := Xor(s, b as bv32);
            Feed(s, BitsOfByte(b)) == Xor(Lowered(x), Entry(LowByte(x)))
  {
    assert Lowered(b as bv32) == 0;
    hide Xor, ShiftN, LowByte, Lowered, HalfN, Digits;
    FeedDigits(s, b as bv32, 8);
    HalfByte(b as bv32);
    XorUnit(ShiftN(Xor(s, b as bv32), 8));
    EightSteps(Xor(s, b as bv32));
  }

  // ---------------------------------------------------------------- a checksum behind its data

  function LastByte(w: bv32): bv8 { LowByte(w) as bv8 }

  // The four bytes of w, least significant first.
  function LittleEndian(w: bv32): seq<bv8> {
    [LastByte(w), LastByte(Lowered(w)), LastByte(Lowered(Lowered(w))), LastByte(Lowered(Lowered(Lowered(w))))]
  }

  function LowMask(n: nat): bv32
    decreases n
  {
    if n == 0 then 0 else (LowMask(n - 1) << 1) | 1
  }

  predicate Agree(v: bv32, w: bv32, mask: bv32) { v & mask == w & mask }

  lemma AgreeStep(v: bv32, w: bv32, m: bv32)
    requires Agree(v, w, (m << 1) | 1)
    ensures IsOdd(v) == IsOdd(w) && Agree(Half(v), Half(w), m)
  {
  }

  // The n lowest digits depend on the n lowest places only.
  lemma {:induction false} SameDigits(v: bv32, w: bv32, n: nat)
    requires Agree(v, w, LowMask(n))
    ensures Digits(v, n) == Digits(w, n)
    decreases n
  {
    if n > 0 {
      AgreeStep(v, w, LowMask(n - 1));
      hide Agree, IsOdd, Half;
      SameDigits(Half(v), Half(w), n - 1);
    }
  }

  lemma {:induction false} DigitsSplit(w: bv32, m: nat, n: nat)
    ensures Digits(w, m + n) == Digits(w, m) + Digits(HalfN(w, m), n)
    decreases m
  {
    hide IsOdd, Half;
    if m > 0 {
      DigitsSplit(Half(w), m - 1, n);
    }
  }

  lemma ByteMask()
    ensures LowMask(8) == 0xFF
  {
    assert LowMask(2) == 3;
    assert LowMask(4) == 15;
    assert LowMask(6) == 63;
  }

  lemma BitsOfLastByte(w: bv32)
    ensures BitsOfByte(LastByte(w)) == Digits(w, 8)
  {
    ByteMask();
    assert LastByte(w) as bv32 == LowByte(w);
    assert Agree(LowByte(w), w, 0xFF);
    hide Agree, LowMask, Digits, LowByte;
    SameDigits(LowByte(w), w, 8);
  }

  lemma BitsOfFour(a: bv8, b: bv8, c: bv8, d: bv8)
    ensures BitsOf([a, b, c, d]) == BitsOfByte(a) + (BitsOfByte(b) + (BitsOfByte(c) + BitsOfByte(d)))
  {
    hide BitsOfByte;
    assert [a, b, c, d][1..] == [b, c, d] && [b, c, d][1..] == [c, d] && [c, d][1..] == [d] && [d][1..] == [];
    assert BitsOf([d]) == BitsOfByte(d);
    assert BitsOf([c, d]) == BitsOfByte(c) + BitsOfByte(d);
  }

  lemma BitsOfLittleEndian(w: bv32)
    ensures BitsOf(LittleEndian(w)) == Digits(w, 32)
  {
    hide BitsOfByte, BitsOf, HalfN, Digits, LastByte, Lowered;
    var w1 := Lowered(w);
    var w2 := Lowered(w1);
    var w3 := Lowered(w2);
    BitsOfFour(LastByte(w), LastByte(w1), LastByte(w2), LastByte(w3));
    BitsOfLastByte(w);
    BitsOfLastByte(w1);
    BitsOfLastByte(w2);
    BitsOfLastByte(w3);
    HalfByte(w);
    HalfByte(w1);
    HalfByte(w2);
    DigitsSplit(w, 8, 24);
    DigitsSplit(w1, 8, 16);
    DigitsSplit(w2, 8, 8);
  }
}
