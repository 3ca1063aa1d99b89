/**
 How far apart two flipped bits can be.  The register returns to where it was after 2^32 - 1 steps and not
 before, so the checksum misses two flipped bits exactly when their distance is a multiple of that.

 A step multiplies by x modulo the generator; the lowest power is the highest bit of the register.
 */
module Crc32Period {
  import opened Crc32
  import opened Crc32Theorems
  import opened Divisibility
  import opened Words

  const ONE: bv32 := 0x8000_0000
  const PERIOD: nat := 0xFFFF_FFFF

  // The n-th power of x.
  function Power(n: nat): bv32 { ShiftN(ONE, n) }

  // ---------------------------------------------------------------- squaring

  predicate Top(a: bv32) { a & 0x8000_0000 != 0 }

  function Term(a: bv32, c: bv32): bv32 { if Top(a) then c else 0 }

  function TwoSteps(c: bv32): bv32 { Shift(Shift(c)) }

  // The n lowest powers of a, each replaced by its double, times c.
  function SquareN(a: bv32, c: bv32, n: nat): bv32
    decreases n
  {
    if n == 0 then 0 else Xor(Term(a, c), SquareN(Doubled(a), TwoSteps(c), n - 1))
  }

  function FourUp(a: bv32): bv32 { a << 4 }

  function EightUp(a: bv32): bv32 { FourUp(FourUp(a)) }

  // c is added to the rest if a has this bit.
  function Pick(a: bv32, bit: bv32, c: bv32, rest: bv32): bv32 { if a & bit != 0 then c ^ rest else rest }

  // Eight powers written out, and what the others give.
  function EightTerms(a: bv32, c0: bv32, c1: bv32, c2: bv32, c3: bv32, c4: bv32, c5: bv32, c6: bv32, c7: bv32, rest: bv32): bv32 {
    Pick(a, 0x8000_0000, c0, Pick(a, 0x4000_0000, c1, Pick(a, 0x2000_0000, c2, Pick(a, 0x1000_0000, c3,
      Pick(a, 0x0800_0000, c4, Pick(a, 0x0400_0000, c5, Pick(a, 0x0200_0000, c6, Pick(a, 0x0100_0000, c7, rest))))))))
  }

  // All 32 powers written out, from the 24th, the 16th, the 8th and the first on: the constants are the
  // even powers of x.
  function From24(a: bv32): bv32 {
    EightTerms(a, 0xE135_1B80, 0x384D_46E0, 0x0E13_51B8, 0x0384_D46E, 0xED59_B63B, 0xA032_AF3E, 0xC5B4_28EF, 0xAA09_C88B, 0)
  }

  function From16(a: bv32): bv32 {
    EightTerms(a, 0xEDB8_8320, 0x3B6E_20C8, 0x0EDB_8832, 0xEE0E_612C, 0x3B83_984B, 0x9584_24A2, 0xC8D9_8A08, 0x3236_6282, From24(EightUp(a)))
  }

  function From8(a: bv32): bv32 {
    EightTerms(a, 0x0000_8000, 0x0000_2000, 0x0000_0800, 0x0000_0200, 0x0000_0080, 0x0000_0020, 0x0000_0008, 0x0000_0002, From16(EightUp(a)))
  }

  function Square(a: bv32): bv32 {
    EightTerms(a, 0x8000_0000, 0x2000_0000, 0x0800_0000, 0x0200_0000, 0x0080_0000, 0x0020_0000, 0x0008_0000, 0x0002_0000, From8(EightUp(a)))
  }

  lemma DoubledXor(a: bv32, b: bv32)
    ensures Doubled(Xor(a, b)) == Xor(Doubled(a), Doubled(b))
  {
    assert (a ^ b) << 1 == (a << 1) ^ (b << 1);
  }

  lemma TermXor(a: bv32, b: bv32, c: bv32)
    ensures Term(Xor(a, b), c) == Xor(Term(a, c), Term(b, c))
  {
    assert (a ^ b) & 0x8000_0000 == (a & 0x8000_0000) ^ (b & 0x8000_0000);
    assert a & 0x8000_0000 == 0 || a & 0x8000_0000 == 0x8000_0000;
    assert b & 0x8000_0000 == 0 || b & 0x8000_0000 == 0x8000_0000;
  }

  lemma {:induction false} SquareNLinear(a: bv32, b: bv32, c: bv32, n: nat)
    ensures SquareN(Xor(a, b), c, n) == Xor(SquareN(a, c, n), SquareN(b, c, n))
    decreases n
  {
    XorUnit(0);
    hide Xor, Doubled, Term, TwoSteps;
    if n > 0 {
      var d := TwoSteps(c);
      DoubledXor(a, b);
      TermXor(a, b, c);
      SquareNLinear(Doubled(a), Doubled(b), d, n - 1);
      XorSwap(Term(a, c), Term(b, c), SquareN(Doubled(a), d, n - 1), SquareN(Doubled(b), d, n - 1));
    }
  }

  lemma ZeroSteps()
    ensures TwoSteps(0) == 0
  {
  }

  lemma TwoStepsXor(a: bv32, b: bv32)
    ensures TwoSteps(Xor(a, b)) == Xor(TwoSteps(a), TwoSteps(b))
  {
    ShiftLinear(a, b);
    ShiftLinear(Shift(a), Shift(b));
    hide Shift, Xor;
  }

  lemma {:induction false} SquareNSteps(a: bv32, c: bv32, n: nat)
    ensures SquareN(a, TwoSteps(c), n) == TwoSteps(SquareN(a, c, n))
    decreases n
  {
    ZeroSteps();
    hide Xor, Doubled, Top, TwoSteps;
    if n > 0 {
      SquareNSteps(Doubled(a), TwoSteps(c), n - 1);
      TwoStepsXor(Term(a, c), SquareN(Doubled(a), TwoSteps(c), n - 1));
    }
  }

  function DoubledN(a: bv32, n: nat): bv32
    decreases n
  {
    if n == 0 then a else DoubledN(Doubled(a), n - 1)
  }

  lemma {:induction false} DoubledNAdd(a: bv32, m: nat, n: nat)
    ensures DoubledN(a, m + n) == DoubledN(DoubledN(a, m), n)
    decreases m
  {
    hide Doubled;
    if m > 0 {
      DoubledNAdd(Doubled(a), m - 1, n);
    }
  }

  lemma DoubledFour(a: bv32)
    ensures DoubledN(a, 4) == FourUp(a)
  {
    assert (((a << 1) << 1) << 1) << 1 == a << 4;
  }

  lemma EightTimesFour(a: bv32)
    ensures FourUp(FourUp(FourUp(FourUp(FourUp(FourUp(FourUp(FourUp(a)))))))) == 0
  {
  }

  lemma DoubledAway(a: bv32)
    ensures DoubledN(a, 32) == 0
  {
    EightTimesFour(a);
    hide DoubledN, FourUp;
    var b, k := a, 32;
    FourAtATime(a, 28);
    FourAtATime(FourUp(a), 24);
    FourAtATime(FourUp(FourUp(a)), 20);
    var c := FourUp(FourUp(FourUp(a)));
    FourAtATime(c, 16);
    FourAtATime(FourUp(c), 12);
    FourAtATime(FourUp(FourUp(c)), 8);
    var d := FourUp(FourUp(FourUp(c)));
    FourAtATime(d, 4);
    DoubledFour(FourUp(d));
  }

  lemma FourAtATime(a: bv32, n: nat)
    ensures DoubledN(a, 4 + n) == DoubledN(FourUp(a), n)
  {
    DoubledFour(a);
    hide DoubledN, FourUp;
    DoubledNAdd(a, 4, n);
  }

  // Powers that a does not have add nothing.
  lemma {:induction false} SquareNEnds(a: bv32, c: bv32, n: nat)
    requires DoubledN(a, n) == 0
    ensures SquareN(a, c, n + 1) == SquareN(a, c, n)
    decreases n
  {
    if n == 0 {
      assert Term(0, c) == 0 && Xor(0, 0) == 0;
      hide Xor, Term;
      assert SquareN(a, c, 1) == Xor(Term(a, c), SquareN(Doubled(a), TwoSteps(c), 0));
    } else {
      hide Xor, Doubled, Term, TwoSteps;
      SquareNEnds(Doubled(a), TwoSteps(c), n - 1);
    }
  }

  lemma EvenHalf(a: bv32)
    requires a & 1 == 0
    ensures (a >> 1) << 1 == a && (a >> 1) & 0x8000_0000 == 0
  {
  }

  lemma EvenIsDoubled(a: bv32)
    requires a & 1 == 0
    ensures a == Doubled(Shift(a)) && !Top(Shift(a))
  {
    EvenHalf(a);
    ShiftDoubled(a >> 1);
    hide Shift;
  }

  lemma XorZero(a: bv32)
    ensures Xor(0, a) == a
  {
  }

  lemma SquareOfEven(a: bv32)
    requires a & 1 == 0
    ensures SquareN(Shift(a), ONE, 32) == TwoSteps(SquareN(a, ONE, 32))
  {
    var h := Shift(a);
    EvenIsDoubled(a);
    assert Term(h, ONE) == 0;
    hide Shift, Doubled, Term, Xor, TwoSteps, DoubledN;
    DoubledAway(h);
    assert DoubledN(a, 31) == 0 by { DoubledNAdd(h, 1, 31); OneDoubling(h); }
    SquareNEnds(a, TwoSteps(ONE), 31);
    SquareNSteps(a, ONE, 32);
    XorZero(SquareN(a, TwoSteps(ONE), 31));
  }

  lemma OneDoubling(a: bv32)
    ensures DoubledN(a, 1) == Doubled(a)
  {
    assert DoubledN(Doubled(a), 0) == Doubled(a);
  }

  lemma FirstTerm(a: bv32, c: bv32, n: nat)
    ensures SquareN(a, c, n + 1) == Xor(Term(a, c), SquareN(Doubled(a), TwoSteps(c), n))
  {
  }

  // A doubled word has a bit where the word has the next lower one.
  lemma MaskDown(a: bv32, m: bv32, c: bv32, rest: bv32)
    requires m & 1 == 0
    ensures Pick(Doubled(a), m, c, rest) == Pick(a, m >> 1, c, rest)
  {
    MaskBits(a, m);
  }

  lemma MaskBits(a: bv32, m: bv32)
    requires m & 1 == 0
    ensures (a << 1) & m != 0 <==> a & (m >> 1) != 0
  {
  }

  lemma PickDown(a: bv32, k: nat, c: bv32, rest: bv32)
    requires k < 8
    ensures Xor(Term(DoubledN(a, k), c), rest) == Pick(a, Mask(k), c, rest)
    decreases k
  {
    TermIsPick(a, c, rest);
    Masks();
    hide Doubled, Pick, Term, Xor, Mask;
    if k > 0 {
      MaskNext(k);
      PickDown(Doubled(a), k - 1, c, rest);
      MaskDown(a, Mask(k - 1), c, rest);
    }
  }

  lemma TermIsPick(a: bv32, c: bv32, rest: bv32)
    ensures Xor(Term(a, c), rest) == Pick(a, 0x8000_0000, c, rest)
  {
    XorZero(rest);
  }

  function Mask(k: nat): bv32
    requires k < 8
  {
    match k
    case 0 => 0x8000_0000
    case 1 => 0x4000_0000
    case 2 => 0x2000_0000
    case 3 => 0x1000_0000
    case 4 => 0x0800_0000
    case 5 => 0x0400_0000
    case 6 => 0x0200_0000
    case _ => 0x0100_0000
  }

  lemma MaskNext(k: nat)
    requires 0 < k < 8
    ensures Mask(k - 1) & 1 == 0 && Mask(k) == Mask(k - 1) >> 1
  {
  }

  lemma Masks()
    ensures Mask(0) == 0x8000_0000 && Mask(1) == 0x4000_0000 && Mask(2) == 0x2000_0000 && Mask(3) == 0x1000_0000
    ensures Mask(4) == 0x0800_0000 && Mask(5) == 0x0400_0000 && Mask(6) == 0x0200_0000 && Mask(7) == 0x0100_0000
  {
  }

  lemma DoubledEight(a: bv32)
    ensures DoubledN(a, 8) == EightUp(a)
  {
    hide DoubledN, FourUp;
    DoubledFour(a);
    DoubledFour(FourUp(a));
    DoubledNAdd(a, 4, 4);
  }

  lemma DoubledNext(a: bv32, k: nat)
    ensures Doubled(DoubledN(a, k)) == DoubledN(a, k + 1)
  {
    DoubledNAdd(a, k, 1);
    OneDoubling(DoubledN(a, k));
    hide DoubledN, Doubled;
  }

  lemma FirstEight(a: bv32, c0: bv32, c1: bv32, c2: bv32, c3: bv32, c4: bv32, c5: bv32, c6: bv32, c7: bv32, n: nat)
    requires c1 == TwoSteps(c0) && c2 == TwoSteps(c1) && c3 == TwoSteps(c2) && c4 == TwoSteps(c3)
    requires c5 == TwoSteps(c4) && c6 == TwoSteps(c5) && c7 == TwoSteps(c6)
    ensures SquareN(a, c0, n + 8)
         == EightTerms(a, c0, c1, c2, c3, c4, c5, c6, c7, SquareN(EightUp(a), TwoSteps(c7), n))
  {
    assert DoubledN(a, 0) == a;
    Masks();
    hide Doubled, DoubledN, TwoSteps, Term, Pick, Xor, SquareN, EightUp, Mask;
    DoubledEight(a);
    NextTerm(a, 0, c0, n + 7);
    NextTerm(a, 1, c1, n + 6);
    NextTerm(a, 2, c2, n + 5);
    NextTerm(a, 3, c3, n + 4);
    NextTerm(a, 4, c4, n + 3);
    NextTerm(a, 5, c5, n + 2);
    NextTerm(a, 6, c6, n + 1);
    NextTerm(a, 7, c7, n);
  }

  lemma NextTerm(a: bv32, k: nat, c: bv32, n: nat)
    requires k < 8
    ensures SquareN(DoubledN(a, k), c, n + 1) == Pick(a, Mask(k), c, SquareN(DoubledN(a, k + 1), TwoSteps(c), n))
  {
    FirstTerm(DoubledN(a, k), c, n);
    DoubledNext(a, k);
    hide Pick, Xor, DoubledN, SquareN, Term, TwoSteps, Doubled;
    PickDown(a, k, c, SquareN(DoubledN(a, k + 1), TwoSteps(c), n));
  }

  lemma NoTerms(a: bv32, c: bv32)
    ensures SquareN(a, c, 0) == 0
  {
  }

  lemma EvenPowers24()
    ensures TwoSteps(0xE135_1B80) == 0x384D_46E0 && TwoSteps(0x384D_46E0) == 0x0E13_51B8
    ensures TwoSteps(0x0E13_51B8) == 0x0384_D46E && TwoSteps(0x0384_D46E) == 0xED59_B63B
    ensures TwoSteps(0xED59_B63B) == 0xA032_AF3E && TwoSteps(0xA032_AF3E) == 0xC5B4_28EF
    ensures TwoSteps(0xC5B4_28EF) == 0xAA09_C88B
  {
  }

  lemma From24Is(a: bv32)
    ensures From24(a) == SquareN(a, 0xE135_1B80, 8)
  {
    EvenPowers24();
    NoTerms(EightUp(a), TwoSteps(0xAA09_C88B));
    hide TwoSteps, SquareN, EightTerms, EightUp;
    FirstEight(a, 0xE135_1B80, 0x384D_46E0, 0x0E13_51B8, 0x0384_D46E, 0xED59_B63B, 0xA032_AF3E, 0xC5B4_28EF, 0xAA09_C88B, 0);
  }

  lemma EvenPowers16()
    ensures TwoSteps(0xEDB8_8320) == 0x3B6E_20C8 && TwoSteps(0x3B6E_20C8) == 0x0EDB_8832
    ensures TwoSteps(0x0EDB_8832) == 0xEE0E_612C && TwoSteps(0xEE0E_612C) == 0x3B83_984B
    ensures TwoSteps(0x3B83_984B) == 0x9584_24A2 && TwoSteps(0x9584_24A2) == 0xC8D9_8A08
    ensures TwoSteps(0xC8D9_8A08) == 0x3236_6282 && TwoSteps(0x3236_6282) == 0xE135_1B80
  {
  }

  lemma From16Is(a: bv32)
    ensures From16(a) == SquareN(a, 0xEDB8_8320, 16)
  {
    EvenPowers16();
    From24Is(EightUp(a));
    hide From24;
    hide TwoSteps, SquareN, EightTerms, EightUp;
    FirstEight(a, 0xEDB8_8320, 0x3B6E_20C8, 0x0EDB_8832, 0xEE0E_612C, 0x3B83_984B, 0x9584_24A2, 0xC8D9_8A08, 0x3236_6282, 8);
  }

  lemma EvenPowers8()
    ensures TwoSteps(0x0000_8000) == 0x0000_2000 && TwoSteps(0x0000_2000) == 0x0000_0800
    ensures TwoSteps(0x0000_0800) == 0x0000_0200 && TwoSteps(0x0000_0200) == 0x0000_0080
    ensures TwoSteps(0x0000_0080) == 0x0000_0020 && TwoSteps(0x0000_0020) == 0x0000_0008
    ensures TwoSteps(0x0000_0008) == 0x0000_0002 && TwoSteps(0x0000_0002) == 0xEDB8_8320
  {
  }

  lemma From8Is(a: bv32)
    ensures From8(a) == SquareN(a, 0x0000_8000, 24)
  {
    EvenPowers8();
    From16Is(EightUp(a));
    hide From16;
    hide TwoSteps, SquareN, EightTerms, EightUp;
    FirstEight(a, 0x0000_8000, 0x0000_2000, 0x0000_0800, 0x0000_0200, 0x0000_0080, 0x0000_0020, 0x0000_0008, 0x0000_0002, 16);
  }

  lemma EvenPowers()
    ensures TwoSteps(0x8000_0000) == 0x2000_0000 && TwoSteps(0x2000_0000) == 0x0800_0000
    ensures TwoSteps(0x0800_0000) == 0x0200_0000 && TwoSteps(0x0200_0000) == 0x0080_0000
    ensures TwoSteps(0x0080_0000) == 0x0020_0000 && TwoSteps(0x0020_0000) == 0x0008_0000
    ensures TwoSteps(0x0008_0000) == 0x0002_0000 && TwoSteps(0x0002_0000) == 0x0000_8000
  {
  }

  lemma SquareIs(a: bv32)
    ensures Square(a) == SquareN(a, ONE, 32)
  {
    EvenPowers();
    From8Is(EightUp(a));
    hide From8;
    hide TwoSteps, SquareN, EightTerms, EightUp;
    FirstEight(a, 0x8000_0000, 0x2000_0000, 0x0800_0000, 0x0200_0000, 0x0080_0000, 0x0020_0000, 0x0008_0000, 0x0002_0000, 24);
  }

  // The generator, which is the 32nd power, and the highest power alone.
  lemma SquareOfEnds()
    ensures Square(POLYNOMIAL) == TwoSteps(Square(1)) && Shift(1) == POLYNOMIAL && Square(ONE) == ONE
  {
  }

  lemma ClearLowest(a: bv32)
    requires a & 1 == 1
    ensures (a ^ 1) & 1 == 0 && Xor(a ^ 1, 1) == a
  {
  }

  lemma SquareOfShift(a: bv32)
    ensures Square(Shift(a)) == TwoSteps(Square(a))
  {
    SquareOfEnds();
    hide Square, Shift, TwoSteps;
    SquareIs(a);
    SquareIs(Shift(a));
    assert a & 1 == 0 || a & 1 == 1;
    if a & 1 == 0 {
      SquareOfEven(a);
    } else {
      var r := a ^ 1;
      ClearLowest(a);
      hide Xor;
      SquareOfEven(r);
      ShiftLinear(r, 1);
      SquareNLinear(Shift(r), POLYNOMIAL, ONE, 32);
      SquareNLinear(r, 1, ONE, 32);
      SquareIs(POLYNOMIAL);
      SquareIs(1);
      TwoStepsXor(SquareN(r, ONE, 32), SquareN(1, ONE, 32));
    }
  }

  lemma PowerNext(n: nat)
    ensures Power(n + 1) == Shift(Power(n)) && Power(0) == ONE
  {
    hide Shift;
    ShiftNAdd(ONE, n, 1);
    assert ShiftN(Power(n), 1) == ShiftN(Shift(Power(n)), 0);
  }

  /** Squaring doubles the exponent. */
  lemma {:induction false} SquareOfPower(n: nat)
    ensures Square(Power(n)) == Power(2 * n)
  {
    PowerNext(0);
    if n == 0 {
      SquareOfEnds();
    } else {
      hide Square, Shift, Power;
      SquareOfPower(n - 1);
      PowerNext(n - 1);
      PowerNext(2 * n - 2);
      PowerNext(2 * n - 1);
      SquareOfShift(Power(n - 1));
    }
  }

  // ---------------------------------------------------------------- powers by their hexadecimal digits

  function Twice(c: bv32, more: bool): bv32 { if more then Shift(Square(c)) else Square(c) }

  lemma TwiceOfPower(n: nat, more: bool)
    ensures Twice(Power(n), more) == Power(2 * n + if more then 1 else 0)
  {
    hide Square, Shift, Power;
    SquareOfPower(n);
    PowerNext(2 * n);
  }

  // The exponent gets four more binary digits.
  lemma Append(n: nat, b3: bool, b2: bool, b1: bool, b0: bool, c: bv32, c3: bv32, c2: bv32, c1: bv32, d: bv32)
    requires Power(n) == c && Twice(c, b3) == c3 && Twice(c3, b2) == c2 && Twice(c2, b1) == c1 && Twice(c1, b0) == d
    ensures Power(16 * n + (if b3 then 8 else 0) + (if b2 then 4 else 0) + (if b1 then 2 else 0) + (if b0 then 1 else 0)) == d
  {
    hide Twice, Power;
    var n3 := 2 * n + if b3 then 1 else 0;
    var n2 := 2 * n3 + if b2 then 1 else 0;
    var n1 := 2 * n2 + if b1 then 1 else 0;
    TwiceOfPower(n, b3);
    TwiceOfPower(n3, b2);
    TwiceOfPower(n2, b1);
    TwiceOfPower(n1, b0);
  }

  lemma PowerF()
    ensures Power(0xF) == 0x0001_0000
  {
    PowerNext(0);
    hide Power;
    Append(0x0, true, true, true, true, 0x8000_0000, 0x4000_0000, 0x1000_0000, 0x0100_0000, 0x0001_0000);
  }

  lemma PowerFFFF()
    requires Power(0xF) == 0x0001_0000
    ensures Power(0xFFFF) == 0xDC7B_5C5F
    ensures Power(0xFF) == 0x01B5_FD1D
  {
    hide Power;
    Append(0xF, true, true, true, true, 0x0001_0000, 0x0000_0001, 0xB8BC_6765, 0x9BA5_4C6F, 0x01B5_FD1D);
    Append(0xFF, true, true, true, true, 0x01B5_FD1D, 0xCAD3_8E8F, 0x7406_FA95, 0x03F9_F863, 0xC78C_44A1);
    Append(0xFFF, true, true, true, true, 0xC78C_44A1, 0xC84F_001C, 0x9A8F_75C0, 0x13FC_A91E, 0xDC7B_5C5F);
  }

  lemma PowerPeriod()
    requires Power(0xFFFF) == 0xDC7B_5C5F
    ensures Power(0xFFFFFFFF) == 0x8000_0000
  {
    hide Power;
    Append(0xFFFF, true, true, true, true, 0xDC7B_5C5F, 0x606C_5E34, 0xF6B5_3986, 0x63FD_82D2, 0xE4A9_0215);
    Append(0xFFFFF, true, true, true, true, 0xE4A9_0215, 0xD91B_DB88, 0x2BAD_0E9A, 0xBFBC_F49C, 0xAEC3_1A2F);
    Append(0xFFFFFF, true, true, true, true, 0xAEC3_1A2F, 0x5C9C_BDDE, 0x9D57_4428, 0x8A39_E3C1, 0x8535_2D3C);
    Append(0xFFFFFFF, true, true, true, true, 0x8535_2D3C, 0x291A_6054, 0x5366_4BE1, 0x52B5_5E39, 0x8000_0000);
  }

  lemma PowerFF00FF()
    requires Power(0xFF) == 0x01B5_FD1D
    ensures Power(0xFF00FF) == 0x351C_22C9
  {
    hide Power;
    Append(0xFF, false, false, false, false, 0x01B5_FD1D, 0x4ED6_1B5F, 0x16D5_D82A, 0x278D_37C1, 0xF4E5_307F);
    Append(0xFF0, false, false, false, false, 0xF4E5_307F, 0x5DF9_7B6B, 0x8CCF_5292, 0xBA1C_8C47, 0x3EF5_34D3);
    Append(0xFF00, true, true, true, true, 0x3EF5_34D3, 0x655C_077A, 0x2D3F_59B5, 0x1977_2432, 0xC547_96E1);
    Append(0xFF00F, true, true, true, true, 0xC547_96E1, 0xAC6D_574F, 0xF9A0_8E57, 0x8769_F32A, 0x351C_22C9);
  }

  lemma PowerF0F0()
    requires Power(0xF) == 0x0001_0000
    ensures Power(0xF0F0) == 0x8684_60B5
  {
    hide Power;
    Append(0xF, false, false, false, false, 0x0001_0000, 0x0000_0002, 0xC5B4_28EF, 0x60C7_6FE0, 0x9E36_506B);
    Append(0xF0, true, true, true, true, 0x9E36_506B, 0x9C01_8645, 0xEDA1_054E, 0x5FC1_5C94, 0xE01F_9DCF);
    Append(0xF0F, false, false, false, false, 0xE01F_9DCF, 0xCC29_9ACC, 0xC45F_BCA8, 0x0135_087E, 0x8684_60B5);
  }

  lemma PowerF0F0F0F()
    requires Power(0xF0F0) == 0x8684_60B5
    ensures Power(0xF0F0F0F) == 0x8C28_3CA0
  {
    hide Power;
    Append(0xF0F0, true, true, true, true, 0x8684_60B5, 0xC43A_EBBC, 0x0C44_6B60, 0x8CAB_7481, 0xAF69_585A);
    Append(0xF0F0F, false, false, false, false, 0xAF69_585A, 0x756D_FD77, 0x7A45_3053, 0x9E29_BBD6, 0xF1D3_1CA2);
    Append(0xF0F0F0, true, true, true, true, 0xF1D3_1CA2, 0x604C_8E8C, 0x079C_4BF2, 0x75B9_9178, 0x8C28_3CA0);
  }

  lemma Power3333()
    ensures Power(0x3333) == 0xC1A9_9CF7
  {
    PowerNext(0);
    hide Power;
    Append(0x0, false, false, true, true, 0x8000_0000, 0x8000_0000, 0x8000_0000, 0x4000_0000, 0x1000_0000);
    Append(0x3, false, false, true, true, 0x1000_0000, 0x0200_0000, 0x0008_0000, 0x0000_0040, 0x1C26_A370);
    Append(0x33, false, false, true, true, 0x1C26_A370, 0x2EF6_2886, 0xB943_2600, 0x6C82_0349, 0x56A9_2869);
    Append(0x333, false, false, true, true, 0x56A9_2869, 0x667E_F113, 0x4024_36D6, 0xFCC1_A385, 0xC1A9_9CF7);
  }

  lemma Power33333333()
    requires Power(0x3333) == 0xC1A9_9CF7
    ensures Power(0x33333333) == 0x8401_1278
  {
    hide Power;
    Append(0x3333, false, false, true, true, 0xC1A9_9CF7, 0x16D3_418B, 0x68A1_AD9F, 0x4BDA_B5FA, 0x3B2B_E47A);
    Append(0x33333, false, false, true, true, 0x3B2B_E47A, 0x5A34_5A10, 0x0736_8DE9, 0x9D74_91A5, 0xC6A7_40B1);
    Append(0x333333, false, false, true, true, 0xC6A7_40B1, 0xDDED_FE3F, 0xDD3E_A802, 0x5FFB_588F, 0x07D5_48E2);
    Append(0x3333333, false, false, true, true, 0x07D5_48E2, 0x1218_3E96, 0x0334_9540, 0x4E21_F476, 0x8401_1278);
  }

  lemma Power5555()
    ensures Power(0x5555) == 0xEBA0_264A
  {
    PowerNext(0);
    hide Power;
    Append(0x0, false, true, false, true, 0x8000_0000, 0x8000_0000, 0x4000_0000, 0x2000_0000, 0x0400_0000);
    Append(0x5, false, true, false, true, 0x0400_0000, 0x0020_0000, 0x0000_0400, 0x9584_24A2, 0xF44F_2413);
    Append(0x55, false, true, false, true, 0xF44F_2413, 0x5D46_B830, 0xE155_28E5, 0x400A_5936, 0x4A62_5CD1);
    Append(0x555, false, true, false, true, 0x4A62_5CD1, 0x2B1A_9480, 0x3FC6_EFD3, 0x330E_B6FB, 0xEBA0_264A);
  }

  lemma Power55555555()
    requires Power(0x5555) == 0xEBA0_264A
    ensures Power(0x55555555) == 0xC736_EB52
  {
    hide Power;
    Append(0x5555, false, true, false, true, 0xEBA0_264A, 0xEBAC_76AC, 0xABA8_5D50, 0xFA12_8581, 0xB867_8921);
    Append(0x55555, false, true, false, true, 0xB867_8921, 0xCA97_C8F0, 0xA121_B3BF, 0xB1F4_ED81, 0x4281_464D);
    Append(0x555555, false, true, false, true, 0x4281_464D, 0x9914_990E, 0xED97_96A7, 0xD6E0_CBEE, 0x98AB_A02D);
    Append(0x5555555, false, true, false, true, 0x98AB_A02D, 0x8892_03AE, 0x0ECB_08A8, 0x3954_C4C2, 0xC736_EB52);
  }

  // ---------------------------------------------------------------- the period

  predicate Returns(n: nat) { Power(n) == ONE }

  lemma PowerSum(m: nat, n: nat)
    ensures Power(m + n) == ShiftN(Power(m), n)
  {
    ShiftNAdd(ONE, m, n);
  }

  lemma {:induction false} ReturnsMultiple(m: nat, k: nat)
    requires Returns(m)
    ensures Returns(m * k)
  {
    PowerNext(0);
    if k > 0 {
      ReturnsMultiple(m, k - 1);
      PowerSum(m, m * (k - 1));
      assert m * k == m + m * (k - 1);
    } else {
      assert m * k == 0;
    }
  }

  // Whole rounds do not matter.
  lemma ReturnsMod(g: nat, n: nat)
    requires 0 < g && Returns(g)
    ensures Returns(n) <==> Returns(n % g)
  {
    var q, r := n / g, n % g;
    ReturnsMultiple(g, q);
    PowerSum(g * q, r);
    assert n == g * q + r;
  }

  ghost predicate FirstReturn(g: nat) {
    0 < g && Returns(g) && forall i :: 0 < i < g ==> !Returns(i)
  }

  lemma FindFirst(d: nat) returns (g: nat)
    requires 0 < d && Returns(d)
    ensures FirstReturn(g)
  {
    hide Returns;
    g := 1;
    while !Returns(g)
      invariant 1 <= g <= d && forall i :: 0 < i < g ==> !Returns(i)
      decreases d - g
    {
      g := g + 1;
    }
  }

  // The register returns after 2^32 - 1 steps, and not after a proper prime part of that.
  lemma Returned()
    ensures Returns(PERIOD) && !Returns(0xFFFF) && !Returns(0xFF_00FF) && !Returns(0xF0F_0F0F)
    ensures !Returns(0x3333_3333) && !Returns(0x5555_5555)
  {
    hide Power;
    PowerF();
    PowerFFFF();
    PowerPeriod();
    PowerFF00FF();
    PowerF0F0();
    PowerF0F0F0F();
    Power3333();
    Power33333333();
    Power5555();
    Power55555555();
  }

  // A prime p does not divide the number q of rounds when the register is elsewhere after PERIOD / p steps.
  lemma NotInRounds(g: nat, q: nat, p: nat, part: nat)
    requires Returns(g) && g * q == p * part && 0 < p && !Returns(part)
    ensures q % p != 0
  {
    if q % p == 0 {
      var r := q / p;
      assert q == p * r;
      assert p * (g * r) == p * part;
      SameFactor(p, g * r, part);
      ReturnsMultiple(g, r);
    }
  }

  lemma SameFactor(p: nat, x: int, y: int)
    requires 0 < p && p * x == p * y
    ensures x == y
  {
    MultiplesApart(p, x, y);
    MultiplesApart(p, y, x);
  }

  lemma MultiplesApart(p: nat, x: int, y: int)
    ensures x < y ==> p * x + p <= p * y
  {
    if x < y {
      var d := y - x - 1;
      assert p * y == p * x + p + p * d;
      assert 0 <= p * d;
    }
  }

  // So it divides the length of one round.
  lemma InRound(g: nat, q: nat, p: nat, rest: nat)
    requires Prime(p) && q * g == p * rest && q % p != 0
    ensures g % p == 0 && q * (g / p) == rest
  {
    MultipleOf(rest, p, p);
    Euclid(p, q, g);
    var h := g / p;
    assert g == p * h;
    assert p * (q * h) == p * rest;
    SameFactor(p, q * h, rest);
  }

  lemma PeriodFactors(g: nat, q: nat)
    requires q * g == PERIOD && q % 3 != 0 && q % 5 != 0 && q % 17 != 0 && q % 257 != 0 && q % 65537 != 0
    ensures g == PERIOD
  {
    SmallPrimes();
    Prime257();
    Prime65537();
    hide Prime;
    InRound(g, q, 65537, 65535);
    InRound(g / 65537, q, 257, 255);
    var h := g / 65537 / 257;
    InRound(h, q, 17, 15);
    InRound(h / 17, q, 5, 3);
    InRound(h / 17 / 5, q, 3, 1);
    OnlyOne(q, h / 17 / 5 / 3);
    assert q * g == g;
  }

  lemma OnlyOne(q: nat, h: nat)
    requires q * h == 1
    ensures q == 1
  {
    assert h != 0;
    MulMonotone(q, 1, h);
  }

  lemma FirstIsPeriod(g: nat)
    requires FirstReturn(g)
    ensures g == PERIOD
  {
    Returned();
    ReturnsMod(g, PERIOD);
    hide Returns;
    var q := PERIOD / g;
    assert PERIOD % g == 0;
    assert g * q == PERIOD;
    NotInRounds(g, q, 3, 0x5555_5555);
    NotInRounds(g, q, 5, 0x3333_3333);
    NotInRounds(g, q, 17, 0xF0F_0F0F);
    NotInRounds(g, q, 257, 0xFF_00FF);
    NotInRounds(g, q, 65537, 0xFFFF);
    PeriodFactors(g, q);
  }

  /** The register is back at its starting place exactly after multiples of 2^32 - 1 steps. */
  lemma ReturnsExactly(n: nat)
    ensures Returns(n) <==> n % PERIOD == 0
  {
    Returned();
    ReturnsMod(PERIOD, n);
    PowerNext(0);
    var g := FindFirst(PERIOD);
    FirstIsPeriod(g);
    assert Returns(0);
    hide Returns;
  }

  // ---------------------------------------------------------------- two flipped bits

  lemma OneIsPower()
    ensures ShiftN(ONE, 31) == 1
  {
    assert ShiftN(ONE, 8) == 0x0080_0000 && ShiftN(0x0080_0000, 8) == 0x0000_8000;
    assert ShiftN(0x0000_8000, 8) == 0x80 && ShiftN(0x80, 7) == 1;
    hide Shift, ShiftN;
    ShiftNAdd(ONE, 8, 23);
    ShiftNAdd(0x0080_0000, 8, 15);
    ShiftNAdd(0x0000_8000, 8, 7);
  }

  // A single bit that has been shifted is again that bit exactly after whole periods.
  lemma BitReturns(d: nat)
    ensures ShiftN(1, d) == 1 <==> d % PERIOD == 0
  {
    OneIsPower();
    ReturnsExactly(d);
    ShiftNAdd(ONE, 31, d);
    ShiftNAdd(ONE, d, 31);
    hide Shift, ShiftN;
    if ShiftN(Power(d), 31) == ShiftN(ONE, 31) {
      ShiftNInjective(Power(d), ONE, 31);
    }
  }

  lemma {:induction false} ZeroStays(n: nat)
    ensures ShiftN(0, n) == 0
    decreases n
  {
    assert Shift(0) == 0;
    hide Shift;
    if n > 0 {
      ZeroStays(n - 1);
    }
  }

  lemma OneBit(s: bv32)
    ensures Feed(s, [true]) == Shift(Xor(s, 1))
  {
    assert Feed(Shift(Xor(s, 1)), []) == Shift(Xor(s, 1));
    hide Shift, Xor;
    assert [true][1..] == [];
  }

  lemma VanishesOnly(s: bv32, n: nat)
    ensures ShiftN(Shift(Xor(s, 1)), n) == 0 <==> s == 1
  {
    ZeroStays(n);
    ZeroStays(1);
    XorSame(s, 1);
    assert Shift(0) == 0;
    hide Xor, Shift, ShiftN;
    if ShiftN(Shift(Xor(s, 1)), n) == 0 {
      ShiftNInjective(Shift(Xor(s, 1)), 0, n);
      ShiftInjective(Xor(s, 1), 0);
    }
  }

  // Two set bits at this distance, and nothing else.
  lemma FeedTwoBits(i: nat, d: nat, n: nat)
    requires 0 < d
    ensures Feed(0, Zeros(i) + [true] + Zeros(d - 1) + [true] + Zeros(n)) == 0 <==> d % PERIOD == 0
  {
    hide Feed, Shift, Xor, Zeros, ShiftN;
    var first := Zeros(i) + [true];
    var gap := first + Zeros(d - 1);
    FeedConcat(0, gap + [true], Zeros(n));
    FeedConcat(0, gap, [true]);
    FeedConcat(0, first, Zeros(d - 1));
    FeedConcat(0, Zeros(i), [true]);
    FeedZeros(0, i);
    ZeroStays(i);
    OneBit(0);
    XorZero(1);
    FeedZeros(Shift(1), d - 1);
    FirstStep(1, d);
    BitReturns(d);
    var s := ShiftN(1, d);
    OneBit(s);
    FeedZeros(Shift(Xor(s, 1)), n);
    VanishesOnly(s, n);
  }

  lemma FirstStep(s: bv32, d: nat)
    requires 0 < d
    ensures ShiftN(Shift(s), d - 1) == ShiftN(s, d)
  {
  }

  // The bits of a and b differ at i and j, and nowhere else.
  ghost predicate DifferAt(a: seq<bool>, b: seq<bool>, i: nat, j: nat)
    requires |a| == |b|
  {
    forall k :: 0 <= k < |a| ==> (a[k] != b[k] <==> k == i || k == j)
  }

  lemma TwoBitsApart(a: seq<bool>, b: seq<bool>, i: nat, j: nat)
    requires |a| == |b| && i < j < |a| && DifferAt(a, b, i, j)
    ensures XorBits(a, b) == Zeros(i) + [true] + Zeros(j - i - 1) + [true] + Zeros(|a| - j - 1)
  {
  }

  /** Two flipped bits, anywhere in data of any length, are missed exactly when their distance is a multiple
      of 2^32 - 1: in less than half a gigabyte they are always detected. */
  lemma TwoFlippedBits(a: seq<bv8>, b: seq<bv8>, i: nat, j: nat)
    requires |a| == |b| && i < j < 8 * |a| && DifferAt(BitsOf(a), BitsOf(b), i, j)
    ensures Crc(a) == Crc(b) <==> (j - i) % PERIOD == 0
  {
    hide Feed, BitsOf, XorData, XorBits, Zeros, Crc, DifferAt;
    MissedExactly(a, b);
    BitsOfXor(a, b);
    TwoBitsApart(BitsOf(a), BitsOf(b), i, j);
    FeedTwoBits(i, j - i, 8 * |a| - j - 1);
  }

  // ---------------------------------------------------------------- the start value

  lemma PowerB844()
    ensures Power(0xB844) == 0x2784_4665
  {
    PowerNext(0);
    hide Power;
    Append(0x0, true, false, true, true, 0x8000_0000, 0x4000_0000, 0x2000_0000, 0x0400_0000, 0x0010_0000);
    Append(0xB, true, false, false, false, 0x0010_0000, 0x0000_0100, 0x3236_6282, 0xD3E5_1BB5, 0x6BF1_402C);
    Append(0xB8, false, true, false, false, 0x6BF1_402C, 0x509C_C277, 0x632D_1396, 0xBBDC_C93B, 0xDA9A_2808);
    Append(0xB84, false, true, false, false, 0xDA9A_2808, 0x7A89_24CA, 0x2021_77D3, 0x0991_6496, 0x2784_4665);
  }

  // The start value of the checksum is a power of x.
  lemma OnesIsPower()
    requires Power(0xB844) == 0x2784_4665
    ensures Power(0xB844_9066) == ONES
  {
    hide Power;
    Append(0xB844, true, false, false, true, 0x2784_4665, 0xC486_BC77, 0xF91F_DA93, 0xEC0C_FDA7, 0xFCA5_4B8F);
    Append(0xB8449, false, false, false, false, 0xFCA5_4B8F, 0x9341_3ACA, 0x6010_18EB, 0xA802_A1E0, 0x8EBE_6540);
    Append(0xB84490, false, true, true, false, 0x8EBE_6540, 0x2AE2_2292, 0x997F_25B9, 0x400C_822F, 0x29A4_A151);
    Append(0xB844906, false, true, true, false, 0x29A4_A151, 0x4817_BBB5, 0x050C_709B, 0xB05E_AB43, 0xFFFF_FFFF);
  }

  lemma OnesReturn(d: nat)
    ensures ShiftN(ONES, d) == ONES <==> d % PERIOD == 0
  {
    hide Power, ShiftN;
    PowerB844();
    OnesIsPower();
    ReturnsExactly(d);
    AfterPower(0xB844_9066, d);
  }

  // From any power of x on, the register is back exactly when it is back from the start.
  lemma AfterPower(k: nat, d: nat)
    ensures ShiftN(Power(k), d) == Power(k) <==> Returns(d)
  {
    PowerSum(k, d);
    PowerSum(d, k);
    hide ShiftN;
    assert Power(k) == ShiftN(ONE, k);
    if ShiftN(Power(d), k) == ShiftN(ONE, k) {
      ShiftNInjective(Power(d), ONE, k);
    }
  }

  ghost predicate AllZero(data: seq<bv8>) {
    forall i :: 0 <= i < |data| ==> data[i] == 0
  }

  lemma ZeroByte()
    ensures BitsOfByte(0) == Zeros(8)
  {
    assert BitsOfByte(0) == [false, false, false, false, false, false, false, false];
  }

  lemma {:induction false} BitsOfZeros(data: seq<bv8>)
    requires AllZero(data)
    ensures BitsOf(data) == Zeros(8 * |data|)
  {
    ZeroByte();
    hide BitsOfByte;
    if data != [] {
      BitsOfZeros(data[1..]);
    }
  }

  // The period is prime to 8, so whole bytes and bits give the same condition.
  lemma EightTimes(n: nat)
    ensures 8 * n % PERIOD == 0 <==> n % PERIOD == 0
  {
    if 8 * n % PERIOD == 0 {
      MultipleOf(0x2000_0000, 8 * n, PERIOD);
      MultipleOf(n, PERIOD, PERIOD);
      SumMod(0x2000_0000 * (8 * n), n * PERIOD, PERIOD);
      assert 0x2000_0000 * (8 * n) - n * PERIOD == n;
    }
    if n % PERIOD == 0 {
      MultipleOf(8, n, PERIOD);
    }
  }

  /** Zero bytes in front of the data are noticed, unless their number is a multiple of 2^32 - 1: the
      register does not start at zero. */
  lemma LeadingZeros(lead: seq<bv8>, data: seq<bv8>)
    requires AllZero(lead)
    ensures Crc(lead + data) == Crc(data) <==> |lead| % 0xFFFF_FFFF == 0
  {
    hide Feed, BitsOf, ShiftN, Xor, Zeros;
    Streaming(ONES, lead, data);
    BitsOfZeros(lead);
    FeedZeros(ONES, 8 * |lead|);
    OnesReturn(8 * |lead|);
    EightTimes(|lead|);
    var s := ShiftN(ONES, 8 * |lead|);
    if Feed(s, BitsOf(data)) == Feed(ONES, BitsOf(data)) {
      FeedInjective(s, ONES, BitsOf(data));
    }
    XorCancels(Feed(s, BitsOf(data)), ONES);
    XorCancels(Feed(ONES, BitsOf(data)), ONES);
  }

  lemma DigitEntries()
    ensures Entry(0xCE) == 0x7CDC_EFB7
    ensures Entry(0x7A) == 0xB0D0_9822
    ensures Entry(0x01) == 0x7707_3096
    ensures Entry(0x19) == 0x646B_A8C0
    ensures Entry(0x69) == 0x346E_D9FC
    ensures Entry(0xD5) == 0xF6B9_265B
    ensures Entry(0xA9) == 0xAF0A_1B4C
    ensures Entry(0x58) == 0x65B0_D9C6
    ensures Entry(0x69) == 0x346E_D9FC
  {
  }

  lemma DigitSteps()
    ensures Feed(0xFFFF_FFFF, BitsOfByte(0x31)) == 0x7C23_1048
    ensures Feed(0x7C23_1048, BitsOfByte(0x32)) == 0xB0AC_BB32
    ensures Feed(0xB0AC_BB32, BitsOfByte(0x33)) == 0x77B7_9C2D
    ensures Feed(0x77B7_9C2D, BitsOfByte(0x34)) == 0x641C_1F5C
    ensures Feed(0x641C_1F5C, BitsOfByte(0x35)) == 0x340A_C5E3
    ensures Feed(0x340A_C5E3, BitsOfByte(0x36)) == 0xF68D_2C9E
    ensures Feed(0xF68D_2C9E, BitsOfByte(0x37)) == 0xAFFC_9660
    ensures Feed(0xAFFC_9660, BitsOfByte(0x38)) == 0x651F_2550
    ensures Feed(0x651F_2550, BitsOfByte(0x39)) == 0x340B_C6D9
  {
    DigitEntries();
    hide Entry, Feed, BitsOfByte;
    FeedByte(0xFFFF_FFFF, 0x31);
    FeedByte(0x7C23_1048, 0x32);
    FeedByte(0xB0AC_BB32, 0x33);
    FeedByte(0x77B7_9C2D, 0x34);
    FeedByte(0x641C_1F5C, 0x35);
    FeedByte(0x340A_C5E3, 0x36);
    FeedByte(0xF68D_2C9E, 0x37);
    FeedByte(0xAFFC_9660, 0x38);
    FeedByte(0x651F_2550, 0x39);
  }

  /** The published check value: the digits 1 to 9 in ASCII give 0xCBF43926, and nothing gives 0. */
  lemma CheckValue()
    ensures Crc([0x31, 0x32, 0x33, 0x34, 0x35, 0x36, 0x37, 0x38, 0x39]) == 0xCBF4_3926
    ensures Crc([]) == 0
  {
    XorSame(ONES, ONES);
    NoBits(ONES);
    DigitSteps();
    hide Feed, BitsOfByte, BitsOf;
    var r9: seq<bv8> := [0x39] + [];
    var r8 := [0x38] + r9;
    var r7 := [0x37] + r8;
    var r6 := [0x36] + r7;
    var r5 := [0x35] + r6;
    var r4 := [0x34] + r5;
    var r3 := [0x33] + r4;
    var r2 := [0x32] + r3;
    var r1 := [0x31] + r2;
    assert r1 == [0x31, 0x32, 0x33, 0x34, 0x35, 0x36, 0x37, 0x38, 0x39];
    FeedNextByte(0xFFFF_FFFF, 0x31, r2, 0x7C23_1048);
    FeedNextByte(0x7C23_1048, 0x32, r3, 0xB0AC_BB32);
    FeedNextByte(0xB0AC_BB32, 0x33, r4, 0x77B7_9C2D);
    FeedNextByte(0x77B7_9C2D, 0x34, r5, 0x641C_1F5C);
    FeedNextByte(0x641C_1F5C, 0x35, r6, 0x340A_C5E3);
    FeedNextByte(0x340A_C5E3, 0x36, r7, 0xF68D_2C9E);
    FeedNextByte(0xF68D_2C9E, 0x37, r8, 0xAFFC_9660);
    FeedNextByte(0xAFFC_9660, 0x38, r9, 0x651F_2550);
    FeedNextByte(0x651F_2550, 0x39, [], 0x340B_C6D9);
    NoBits(0x340B_C6D9);
  }

  lemma NoBits(s: bv32)
    ensures Feed(s, BitsOf([])) == s
  {
  }

  lemma FeedNextByte(s: bv32, b: bv8, rest: seq<bv8>, t: bv32)
    requires Feed(s, BitsOfByte(b)) == t
    ensures Feed(s, BitsOf([b] + rest)) == Feed(t, BitsOf(rest))
  {
    FeedFirst(s, [b] + rest);
    assert ([b] + rest)[1..] == rest;
    hide Feed, BitsOf, BitsOfByte;
  }
}
