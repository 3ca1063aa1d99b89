/** 64-bit machine words, modelled as integers with the wrap written out. */
module Words {

  // size_t and uint64_t arithmetic wraps at this bound.
  const WORD: nat := 0x1_0000_0000_0000_0000

  // The value a 64-bit unsigned variable holds after x is stored in it.
  function Wrap(x: int): nat { x % WORD }

  lemma WrapSmall(x: nat)
    requires x < WORD
    ensures Wrap(x) == x
  {
  }

  lemma WrapAdd(x: int, n: int)
    ensures Wrap(Wrap(x) + n) == Wrap(x + n)
  {
  }

  // ALIGN_UP on 64-bit words, with the mask written as dropping the remainder (see MaskedAlignUp).
  function AlignUp(x: nat, align: nat): nat
    requires 0 < align
  {
    var s := Wrap(x + align - 1);
    s - s % align
  }

  // ---------------------------------------------------------------- the mask

  function Pow2(k: nat): (p: nat)
    ensures 0 < p
  {
    if k == 0 then 1 else 2 * Pow2(k - 1)
  }

  // Bitwise and.
  function And(x: nat, y: nat): nat {
    if x == 0 || y == 0 then 0 else (if x % 2 == 1 && y % 2 == 1 then 1 else 0) + 2 * And(x / 2, y / 2)
  }

  // A mask with all bits but the k lowest of a w-bit word drops the remainder modulo 2^k.
  lemma {:induction false} MaskDropsRemainder(x: nat, k: nat, w: nat)
    requires k <= w && x < Pow2(w)
    ensures Pow2(k) <= Pow2(w) && And(x, Pow2(w) - Pow2(k)) == x - x % Pow2(k)
  {
    if w > 0 {
      if k == 0 {
        MaskDropsRemainder(x / 2, 0, w - 1);
      } else {
        MaskDropsRemainder(x / 2, k - 1, w - 1);
        HalfRemainder(x, Pow2(k - 1));
      }
    }
  }

  lemma HalfRemainder(x: nat, p: nat)
    requires 0 < p
    ensures x % (2 * p) == 2 * (x / 2 % p) + x % 2
  {
    var h := x / 2;
    assert h == p * (h / p) + h % p;
    RemainderUnique(x, 2 * p, h / p, 2 * (h % p) + x % 2);
  }

  /** For every power of two up to the word size the macro's `& ~(align - 1)` is the subtraction of the
      remainder. */
  lemma MaskedAlignUp(x: nat, k: nat)
    requires k <= 64
    ensures Pow2(k) <= WORD && AlignUp(x, Pow2(k)) == And(Wrap(x + Pow2(k) - 1), WORD - Pow2(k))
  {
    WordSize();
    hide Pow2, And;
    MaskDropsRemainder(Wrap(x + Pow2(k) - 1), k, 64);
  }

  lemma WordSize()
    ensures Pow2(64) == WORD
  {
    assert Pow2(8) == 0x100;
    hide Pow2;
    Pow2Double(8, 0x100);
    Pow2Double(16, 0x1_0000);
    Pow2Double(32, 0x1_0000_0000);
  }

  lemma {:induction false} Pow2Double(k: nat, p: nat)
    requires Pow2(k) == p
    ensures Pow2(2 * k) == p * p
  {
    if k > 0 {
      Pow2Double(k - 1, Pow2(k - 1));
      assert Pow2(2 * k) == 2 * Pow2(2 * k - 1);
    }
  }

  // ---------------------------------------------------------------- remainders

  // The remainder is the only r below a with x = a * q + r.
  lemma RemainderUnique(x: int, a: nat, q: int, r: nat)
    requires x == a * q + r && r < a
    ensures x % a == r
  {
    var k := q - x / a;
    assert a * k == x % a - r by {
      assert x == a * (x / a) + x % a;
      assert a * k == a * q - a * (x / a);
    }
    assert 1 <= k ==> a <= a * k;
    assert k <= -1 ==> a * k + a <= 0;
  }

  lemma SumMod(x: int, y: int, a: nat)
    requires 0 < a && x % a == 0 && y % a == 0
    ensures (x + y) % a == 0 && (x - y) % a == 0
  {
    var i, j := x / a, y / a;
    assert x == a * i && y == a * j;
    assert x + y == a * (i + j) && x - y == a * (i - j);
    RemainderUnique(x + y, a, i + j, 0);
    RemainderUnique(x - y, a, i - j, 0);
  }

  /** ALIGN_UP overflows exactly when the request is within a page of the word size, and the
      code's test `aligned < size` detects exactly that. */
  lemma AlignUpCorrect(x: nat, a: nat)
    requires 0 < a && 0 < x < WORD && a < WORD
    ensures AlignUp(x, a) < x <==> WORD <= x + a - 1
    ensures x <= AlignUp(x, a) ==> AlignUp(x, a) % a == 0 && AlignUp(x, a) < x + a
  {
    var s := Wrap(x + a - 1);
    assert s == if WORD <= x + a - 1 then x + a - 1 - WORD else x + a - 1;
    hide Wrap;
    DropRemainder(s, a);
  }

  // Rounding up to the q-th multiple.
  lemma AlignUpTo(x: nat, a: nat, q: nat)
    requires 0 < a && a * q - a < x <= a * q && x + a - 1 < WORD
    ensures AlignUp(x, a) == a * q
  {
    WrapSmall(x + a - 1);
    hide Wrap;
    RemainderUnique(x + a - 1, a, q, x + a - 1 - a * q);
  }

  lemma DropRemainder(s: nat, a: nat)
    requires 0 < a
    ensures (s - s % a) % a == 0 && s - a < s - s % a <= s && (s < a ==> s - s % a == 0)
  {
    assert s == a * (s / a) + s % a;
    RemainderUnique(s - s % a, a, s / a, 0);
  }
}
