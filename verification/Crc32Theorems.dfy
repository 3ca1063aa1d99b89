/** What the checksum detects, and how it composes. */
module Crc32Theorems {
  import opened Crc32

  // ---------------------------------------------------------------- the constant residue

  lemma OnesByBytes()
    ensures ShiftN(ONES, 8) == 0x2DFD1072
    ensures ShiftN(0x2DFD1072, 8) == 0xBE26ED00
    ensures ShiftN(0xBE26ED00, 8) == 0x00BE26ED
    ensures ShiftN(0x00BE26ED, 8) == 0xDEBB20E3
  {
  }

  lemma OnesShifted()
    ensures Xor(ShiftN(ONES, 32), ONES) == RESIDUE
  {
    OnesByBytes();
    hide Shift, ShiftN;
    ShiftNAdd(ONES, 16, 16);
    ShiftNAdd(ONES, 8, 8);
    ShiftNAdd(0xBE26ED00, 8, 8);
  }

  /** Data followed by its own checksum, least significant byte first, always has the same
      checksum. */
  lemma CrcOfCodeword(data: seq<bv8>)
    ensures Crc(data + LittleEndian(Crc(data))) == RESIDUE
  {
    var s := Feed(ONES, BitsOf(data));
    var c := Crc(data);
    hide Xor, LittleEndian, HalfN, Digits, ShiftN, BitsOf, Feed;
    Streaming(ONES, data, LittleEndian(c));
    BitsOfLittleEndian(c);
    FeedDigits(s, c, 32);
    HalfBytes(c);
    XorCommutes(ONES, s);
    XorCommutes(s, c);
    XorCancels(ONES, s);
    XorUnit(ShiftN(ONES, 32));
    OnesShifted();
  }

  // ---------------------------------------------------------------- exclusive or of data

  function XorByte(a: bv8, b: bv8): bv8 { a ^ b }

  function XorData(a: seq<bv8>, b: seq<bv8>): (c: seq<bv8>)
    requires |a| == |b|
    ensures |c| == |a|
  {
    seq(|a|, i requires 0 <= i < |a| => XorByte(a[i], b[i]))
  }

  lemma OddXor(v: bv32, w: bv32)
    ensures IsOdd(Xor(v, w)) == (IsOdd(v) != IsOdd(w))
  {
    assert v & 1 == 0 || v & 1 == 1;
    assert w & 1 == 0 || w & 1 == 1;
    assert (v ^ w) & 1 == (v & 1) ^ (w & 1);
  }

  lemma HalfXor(v: bv32, w: bv32)
    ensures Half(Xor(v, w)) == Xor(Half(v), Half(w))
  {
    assert (v ^ w) >> 1 == (v >> 1) ^ (w >> 1);
  }

  lemma {:induction false} DigitsXor(v: bv32, w: bv32, n: nat)
    ensures Digits(Xor(v, w), n) == XorBits(Digits(v, n), Digits(w, n))
    decreases n
  {
    hide Xor, IsOdd, Half;
    if n > 0 {
      OddXor(v, w);
      HalfXor(v, w);
      DigitsXor(Half(v), Half(w), n - 1);
    }
  }

  lemma BitsOfByteXor(a: bv8, b: bv8)
    ensures BitsOfByte(XorByte(a, b)) == XorBits(BitsOfByte(a), BitsOfByte(b))
  {
    assert (a ^ b) as bv32 == Xor(a as bv32, b as bv32);
    hide Xor, Digits;
    DigitsXor(a as bv32, b as bv32, 8);
  }

  lemma XorBitsConcat(a: seq<bool>, b: seq<bool>, c: seq<bool>, d: seq<bool>)
    requires |a| == |c| && |b| == |d|
    ensures XorBits(a + b, c + d) == XorBits(a, c) + XorBits(b, d)
  {
  }

  lemma {:induction false} BitsOfXor(a: seq<bv8>, b: seq<bv8>)
    requires |a| == |b|
    ensures BitsOf(XorData(a, b)) == XorBits(BitsOf(a), BitsOf(b))
  {
    hide XorByte, BitsOfByte, XorBits;
    if a == [] {
      assert XorBits([], []) == [];
    } else {
      BitsOfByteXor(a[0], b[0]);
      assert XorData(a, b)[1..] == XorData(a[1..], b[1..]);
      BitsOfXor(a[1..], b[1..]);
      XorBitsConcat(BitsOfByte(a[0]), BitsOf(a[1..]), BitsOfByte(b[0]), BitsOf(b[1..]));
    }
  }

  /** The checksum is affine: it goes through the exclusive or of any three equally long data. */
  lemma CrcAffine(a: seq<bv8>, b: seq<bv8>, c: seq<bv8>)
    requires |a| == |b| == |c|
    ensures Crc(XorData(XorData(a, b), c)) == Xor(Xor(Crc(a), Crc(b)), Crc(c))
  {
    hide Xor, BitsOf, Feed;
    BitsOfXor(a, b);
    BitsOfXor(XorData(a, b), c);
    FeedLinear(ONES, ONES, BitsOf(a), BitsOf(b));
    FeedLinear(Xor(ONES, ONES), ONES, BitsOf(XorData(a, b)), BitsOf(c));
    XorCancels(ONES, ONES);
    var x, y, z := Feed(ONES, BitsOf(a)), Feed(ONES, BitsOf(b)), Feed(ONES, BitsOf(c));
    assert Crc(XorData(XorData(a, b), c)) == Xor(Xor(Xor(x, y), z), ONES);
    ThreeComplements(x, y, z);
  }

  lemma ThreeComplements(x: bv32, y: bv32, z: bv32)
    ensures Xor(Xor(Xor(x, y), z), ONES) == Xor(Xor(Xor(x, ONES), Xor(y, ONES)), Xor(z, ONES))
  {
    hide Xor;
    XorSwap(x, ONES, y, ONES);
    XorUnit(ONES);
    XorUnit(Xor(x, y));
    XorAssociative(Xor(x, y), z, ONES);
  }

  // ---------------------------------------------------------------- burst detection

  lemma {:induction false} DigitsInjective(v: bv32, w: bv32, n: nat)
    requires Digits(v, n) == Digits(w, n) && HalfN(v, n) == HalfN(w, n)
    ensures v == w
    decreases n
  {
    hide IsOdd, Half;
    if n > 0 {
      var d, e := Digits(v, n), Digits(w, n);
      assert d[0] == e[0] && d[1..] == e[1..];
      assert d[1..] == Digits(Half(v), n - 1) && e[1..] == Digits(Half(w), n - 1);
      DigitsInjective(Half(v), Half(w), n - 1);
      HalvesDetermine(v, w);
    }
  }

  lemma HalvesDetermine(v: bv32, w: bv32)
    requires IsOdd(v) == IsOdd(w) && Half(v) == Half(w)
    ensures v == w
  {
  }

  lemma BitsOfByteInjective(a: bv8, b: bv8)
    requires BitsOfByte(a) == BitsOfByte(b)
    ensures a == b
  {
    assert Lowered(a as bv32) == 0 == Lowered(b as bv32);
    assert a as bv32 == b as bv32 ==> a == b;
    hide HalfN, Digits, Lowered;
    HalfByte(a as bv32);
    HalfByte(b as bv32);
    DigitsInjective(a as bv32, b as bv32, 8);
  }

  lemma {:induction false} BitsOfInjective(a: seq<bv8>, b: seq<bv8>)
    requires |a| == |b| && BitsOf(a) == BitsOf(b)
    ensures a == b
  {
    if a != [] {
      hide BitsOfByte;
      var d, e := BitsOf(a), BitsOf(b);
      assert d[..8] == BitsOfByte(a[0]) && e[..8] == BitsOfByte(b[0]);
      assert d[8..] == BitsOf(a[1..]) && e[8..] == BitsOf(b[1..]);
      BitsOfByteInjective(a[0], b[0]);
      BitsOfInjective(a[1..], b[1..]);
      assert a == [a[0]] + a[1..] && b == [b[0]] + b[1..];
    }
  }

  // Two different windows of at most 32 bits leave the register in different states for good.
  lemma WindowsDiffer(s: bv32, v: seq<bool>, w: seq<bool>, rest: seq<bool>)
    requires |v| == |w| <= 32 && v != w
    ensures Feed(Feed(s, v), rest) != Feed(Feed(s, w), rest)
  {
    if Feed(Feed(s, v), rest) == Feed(Feed(s, w), rest) {
      hide Feed, Xor, Word, ShiftN;
      FeedInjective(Feed(s, v), Feed(s, w), rest);
      FeedWord(s, v);
      FeedWord(s, w);
      ShiftNInjective(Xor(s, Word(v)), Xor(s, Word(w)), |v|);
      XorCancels(Word(v), s);
      XorCancels(Word(w), s);
      XorCommutes(Word(v), s);
      XorCommutes(Word(w), s);
      WordInjective(v, w);
    }
  }

  // The bits of a and b agree everywhere outside the window of `width` bits that starts at `from`.
  ghost predicate AgreeOutside(a: seq<bool>, b: seq<bool>, from: nat, width: nat)
    requires |a| == |b| && from + width <= |a|
  {
    a[..from] == b[..from] && a[from + width..] == b[from + width..]
  }

  lemma ThreeParts(s: bv32, bits: seq<bool>, i: nat, j: nat)
    requires i <= j <= |bits|
    ensures bits == bits[..i] + bits[i..j] + bits[j..]
    ensures Feed(s, bits) == Feed(Feed(Feed(s, bits[..i]), bits[i..j]), bits[j..])
  {
    hide Feed;
    assert bits == bits[..i] + bits[i..j] + bits[j..];
    FeedConcat(s, bits[..i] + bits[i..j], bits[j..]);
    FeedConcat(s, bits[..i], bits[i..j]);
  }

  /** Burst detection: two different data of the same length that agree outside some 32 or fewer
      consecutive bits, wherever those are, have different checksums. */
  lemma BurstDetected(a: seq<bv8>, b: seq<bv8>, from: nat, width: nat)
    requires |a| == |b| && a != b && width <= 32 && from + width <= 8 * |a|
    requires AgreeOutside(BitsOf(a), BitsOf(b), from, width)
    ensures Crc(a) != Crc(b)
  {
    hide Feed, Xor, BitsOf;
    var d, e := BitsOf(a), BitsOf(b);
    ThreeParts(ONES, d, from, from + width);
    ThreeParts(ONES, e, from, from + width);
    if d[from..from + width] == e[from..from + width] {
      BitsOfInjective(a, b);
    }
    WindowsDiffer(Feed(ONES, d[..from]), d[from..from + width], e[from..from + width], d[from + width..]);
    XorCancels(Feed(ONES, d), ONES);
    XorCancels(Feed(ONES, e), ONES);
  }

  lemma BitsAround(data: seq<bv8>, i: nat)
    requires i < |data|
    ensures BitsOf(data)[..8 * i] == BitsOf(data[..i])
    ensures BitsOf(data)[8 * i + 8..] == BitsOf(data[i + 1..])
  {
    hide BitsOfByte;
    var tail := data[i..];
    assert data == data[..i] + tail;
    BitsConcat(data[..i], tail);
    assert tail[1..] == data[i + 1..];
    assert BitsOf(tail) == BitsOfByte(data[i]) + BitsOf(data[i + 1..]);
  }

  /** In particular every change of a single byte is detected. */
  lemma ByteChangeDetected(data: seq<bv8>, i: nat, b: bv8)
    requires i < |data| && data[i] != b
    ensures Crc(data[i := b]) != Crc(data)
  {
    var other := data[i := b];
    hide BitsOf, Crc;
    BitsAround(data, i);
    BitsAround(other, i);
    assert other[..i] == data[..i] && other[i + 1..] == data[i + 1..];
    BurstDetected(data, other, 8 * i, 8);
  }

  // ---------------------------------------------------------------- what is not detected

  lemma XorSame(p: bv32, q: bv32)
    ensures Xor(p, q) == 0 <==> p == q
  {
    XorUnit(p);
    XorUnit(q);
    XorCancels(p, q);
    XorCommutes(0, q);
    hide Xor;
  }

  /** A change is missed exactly when the register, started at zero, is zero again after the exclusive
      or of the two data. */
  lemma MissedExactly(a: seq<bv8>, b: seq<bv8>)
    requires |a| == |b|
    ensures Crc(a) == Crc(b) <==> Feed(0, BitsOf(XorData(a, b))) == 0
  {
    hide Xor, BitsOf, Feed, XorData;
    BitsOfXor(a, b);
    FeedLinear(ONES, ONES, BitsOf(a), BitsOf(b));
    XorSame(ONES, ONES);
    var p, q := Feed(ONES, BitsOf(a)), Feed(ONES, BitsOf(b));
    XorSame(p, q);
    XorCancels(p, ONES);
    XorCancels(q, ONES);
  }

  // The generator itself, 33 bits from its highest power down, in bytes of least significant bit first.
  const GENERATOR: seq<bv8> := [0x41, 0x06, 0x71, 0xDB, 0x01]

  lemma EntriesOfGenerator()
    ensures Entry(0) == 0 && Entry(0x41) == 0x1DB_7106
  {
  }

  lemma GeneratorBytes()
    ensures Feed(0, BitsOfByte(0x41)) == 0x1DB_7106 && Feed(0x1DB_7106, BitsOfByte(0x06)) == 0x1_DB71
    ensures Feed(0x1_DB71, BitsOfByte(0x71)) == 0x1DB && Feed(0x1DB, BitsOfByte(0xDB)) == 1
    ensures Feed(1, BitsOfByte(0x01)) == 0
  {
    EntriesOfGenerator();
    FeedByte(0, 0x41);
    FeedByte(0x1DB_7106, 0x06);
    FeedByte(0x1_DB71, 0x71);
    FeedByte(0x1DB, 0xDB);
    FeedByte(1, 0x01);
    hide Feed, Entry, BitsOfByte;
  }

  lemma FeedFirst(s: bv32, data: seq<bv8>)
    requires data != []
    ensures Feed(s, BitsOf(data)) == Feed(Feed(s, BitsOfByte(data[0])), BitsOf(data[1..]))
  {
    hide Feed, BitsOfByte;
    FeedConcat(s, BitsOfByte(data[0]), BitsOf(data[1..]));
  }

  lemma GeneratorVanishes()
    ensures Feed(0, BitsOf(GENERATOR)) == 0
  {
    GeneratorBytes();
    hide BitsOfByte, BitsOf;
    FeedFirst(0, GENERATOR);
    FeedFirst(0x1DB_7106, GENERATOR[1..]);
    FeedFirst(0x1_DB71, GENERATOR[2..]);
    FeedFirst(0x1DB, GENERATOR[3..]);
    FeedFirst(1, GENERATOR[4..]);
  }

  /** The bound of 32 bits cannot be raised: at any place in any data, adding the generator changes data
      within 33 consecutive bits and leaves the checksum as it was. */
  lemma BurstBoundTight(before: seq<bv8>, x: seq<bv8>, after: seq<bv8>)
    requires |x| == |GENERATOR|
    ensures var a, b := before + x + after, before + XorData(x, GENERATOR) + after;
            && a != b && Crc(a) == Crc(b)
            && AgreeOutside(BitsOf(a), BitsOf(b), 8 * |before|, 33)
  {
    var y := XorData(x, GENERATOR);
    var s := Feed(ONES, BitsOf(before));
    GeneratorVanishes();
    BitsOfXor(x, GENERATOR);
    assert x[0] != y[0];
    OnlyTheFirstBits(x, y);
    hide Feed, Xor, BitsOf, XorByte, XorBits;
    FeedLinear(s, 0, BitsOf(x), BitsOf(GENERATOR));
    XorUnit(s);
    XorUnit(Feed(s, BitsOf(x)));
    InTheMiddle(before, x, after);
    InTheMiddle(before, y, after);
    assert (before + x + after)[|before|] == x[0] && (before + y + after)[|before|] == y[0];
    var d, e := BitsOf(x), BitsOf(y);
    WindowInside(BitsOf(before), d, e, BitsOf(after));
  }

  lemma OnlyTheFirstBits(x: seq<bv8>, y: seq<bv8>)
    requires |x| == |GENERATOR| && y == XorData(x, GENERATOR)
    ensures BitsOf(x)[33..] == BitsOf(y)[33..]
  {
    BitsOfXor(x, GENERATOR);
    LastBitsClear();
    hide BitsOf;
    var g := BitsOf(GENERATOR);
    assert forall i :: 33 <= i < 40 ==> BitsOf(y)[i] == (BitsOf(x)[i] != g[i]);
    assert forall i :: 33 <= i < 40 ==> !g[i];
  }

  lemma LastBitsClear()
    ensures forall i :: 33 <= i < 40 ==> !BitsOf(GENERATOR)[i]
  {
    assert BitsOfByte(0x01) == [true, false, false, false, false, false, false, false];
    hide BitsOfByte, BitsOf;
    BitsConcat(GENERATOR[..4], [0x01]);
    assert GENERATOR == GENERATOR[..4] + [0x01];
    SingleByte(0x01);
  }

  lemma SingleByte(b: bv8)
    ensures BitsOf([b]) == BitsOfByte(b)
  {
    hide BitsOfByte;
  }

  lemma InTheMiddle(before: seq<bv8>, x: seq<bv8>, after: seq<bv8>)
    ensures BitsOf(before + x + after) == BitsOf(before) + BitsOf(x) + BitsOf(after)
    ensures Feed(ONES, BitsOf(before + x + after)) == Feed(Feed(Feed(ONES, BitsOf(before)), BitsOf(x)), BitsOf(after))
  {
    hide BitsOf, Feed;
    BitsConcat(before + x, after);
    BitsConcat(before, x);
    Streaming(ONES, before + x, after);
    Streaming(ONES, before, x);
  }

  lemma WindowInside(before: seq<bool>, d: seq<bool>, e: seq<bool>, after: seq<bool>)
    requires |d| == |e| == 40 && d[33..] == e[33..]
    ensures AgreeOutside(before + d + after, before + e + after, |before|, 33)
  {
    assert (before + d + after)[|before| + 33..] == d[33..] + after;
    assert (before + e + after)[|before| + 33..] == e[33..] + after;
    assert (before + d + after)[..|before|] == before && (before + e + after)[..|before|] == before;
  }
}
