/** Primes and what divides a product. */
module Divisibility {
  import opened Words

  ghost predicate Prime(p: nat) {
    1 < p && forall i :: 1 < i < p ==> p % i != 0
  }

  // Of two factors one is small, so trial division can stop early.
  lemma TrialDivision(p: nat, k: nat)
    requires 1 < p < k * k && forall i :: 1 < i < k ==> p % i != 0
    ensures Prime(p)
  {
    forall i | 1 < i < p ensures p % i != 0 {
      NoFactor(p, k, i);
    }
  }

  lemma NoFactor(p: nat, k: nat, i: nat)
    requires 1 < i < p < k * k && forall j :: 1 < j < k ==> p % j != 0
    ensures p % i != 0
  {
    if k <= i && p % i == 0 {
      var j := p / i;
      assert p == i * j;
      CofactorSmall(i, j, k);
      assert p % j != 0;
      RemainderUnique(p, j, i, 0);
    }
  }

  // None of the sixteen numbers from lo on divides p.
  predicate NoneOfSixteen(p: nat, lo: nat)
    requires 0 < lo
  {
    && p % lo != 0 && p % (lo + 1) != 0 && p % (lo + 2) != 0 && p % (lo + 3) != 0
    && p % (lo + 4) != 0 && p % (lo + 5) != 0 && p % (lo + 6) != 0 && p % (lo + 7) != 0
    && p % (lo + 8) != 0 && p % (lo + 9) != 0 && p % (lo + 10) != 0 && p % (lo + 11) != 0
    && p % (lo + 12) != 0 && p % (lo + 13) != 0 && p % (lo + 14) != 0 && p % (lo + 15) != 0
  }

  lemma OneOfSixteen(p: nat, lo: nat, i: nat)
    requires 0 < lo <= i < lo + 16 && NoneOfSixteen(p, lo)
    ensures p % i != 0
  {
  }

  lemma SmallPrimes()
    ensures Prime(3) && Prime(5) && Prime(17)
  {
    TrialDivision(3, 2);
    TrialDivision(5, 3);
    TrialDivision(17, 5);
  }

  lemma Prime257()
    ensures Prime(257)
  {
    forall i | 1 < i < 17 ensures 257 % i != 0 {
      OneOfSixteen(257, 2, i);
    }
    TrialDivision(257, 17);
  }

  lemma SixteenTimes(lo: nat)
    requires lo < 16
    ensures NoneOfSixteen(65537, 2 + 16 * lo)
  {
    match lo
    case 0 =>
    case 1 =>
    case 2 =>
    case 3 =>
    case 4 =>
    case 5 =>
    case 6 =>
    case 7 =>
    case 8 =>
    case 9 =>
    case 10 =>
    case 11 =>
    case 12 =>
    case 13 =>
    case 14 =>
    case _ =>
  }

  lemma Prime65537()
    ensures Prime(65537)
  {
    forall i | 1 < i < 257 ensures 65537 % i != 0 {
      var lo := (i - 2) / 16;
      SixteenTimes(lo);
      hide NoneOfSixteen;
      OneOfSixteen(65537, 2 + 16 * lo, i);
    }
    TrialDivision(65537, 257);
  }

  lemma CofactorSmall(i: nat, j: nat, k: nat)
    requires i < i * j < k * k && k <= i
    ensures 1 < j < k
  {
    MulMonotone(i, j, 1);
    MulBoth(k, i, k, j);
  }

  lemma MulMonotone(i: nat, j: nat, m: nat)
    ensures j <= m ==> i * j <= i * m
  {
  }

  lemma MulBoth(a: nat, b: nat, c: nat, d: nat)
    ensures a <= b && c <= d ==> a * c <= b * d
  {
    MulMonotone(a, c, d);
    MulMonotone(d, a, b);
  }

  // For a prime p: if p divides r times g and 0 < r < p, it divides g.
  lemma {:induction false} EuclidBelow(p: nat, r: nat, g: nat)
    requires Prime(p) && 0 < r < p && (r * g) % p == 0
    ensures g % p == 0
    decreases r
  {
    if r > 1 {
      var k, t := p / r, p % r;
      assert p == r * k + t;
      MultipleOf(k, r * g, p);
      assert k * (r * g) + t * g == p * g;
      RemainderUnique(p * g, p, g, 0);
      SumMod(p * g, k * (r * g), p);
      assert p % r != 0;
      EuclidBelow(p, t, g);
    }
  }

  lemma MultipleOf(k: int, x: int, p: nat)
    requires 0 < p && x % p == 0
    ensures (k * x) % p == 0
  {
    var q := x / p;
    assert x == p * q;
    assert k * x == p * (k * q);
    RemainderUnique(k * x, p, k * q, 0);
  }

  /** A prime that divides a product divides one of its factors. */
  lemma Euclid(p: nat, q: nat, g: nat)
    requires Prime(p) && (q * g) % p == 0 && q % p != 0
    ensures g % p == 0
  {
    var k, r := q / p, q % p;
    assert q == p * k + r;
    assert r * g == q * g - p * (k * g);
    RemainderUnique(p * (k * g), p, k * g, 0);
    SumMod(q * g, p * (k * g), p);
    EuclidBelow(p, r, g);
  }
}
