/**
 Address intervals, and what a list of them covers.

 `Cover(s, x)` counts the blocks of `s` that contain the address `x`.  It is additive over
 concatenation, it does not change when a block is cut in two or when two touching blocks are
 joined, and it determines a canonical list completely (`CanonicalUnique`).  Everything the pool
 promises about its free list follows from these three facts.
 */
module Extents {

  datatype Extent = Extent(addr: nat, size: nat) {
    function End(): nat { addr + size }

    predicate Has(x: int) { addr <= x < addr + size }
  }

  ghost function Cover(s: seq<Extent>, x: int): nat {
    if s == [] then 0 else (if s[0].Has(x) then 1 else 0) + Cover(s[1..], x)
  }

  // Total size of the blocks of s.
  ghost function Bytes(s: seq<Extent>): nat {
    if s == [] then 0 else s[0].size + Bytes(s[1..])
  }

  ghost predicate NonEmpty(s: seq<Extent>) {
    forall i :: 0 <= i < |s| ==> 0 < s[i].size
  }

  // Address-sorted, disjoint, and no block touches the next one.
  ghost predicate Canonical(s: seq<Extent>) {
    forall i, j :: 0 <= i < j < |s| ==> s[i].End() < s[j].addr
  }

  lemma {:induction false} CoverConcat(s: seq<Extent>, t: seq<Extent>, x: int)
    ensures Cover(s + t, x) == Cover(s, x) + Cover(t, x)
  {
    if s == [] {
      assert s + t == t;
    } else {
      CoverConcat(s[1..], t, x);
      assert (s + t)[1..] == s[1..] + t;
    }
  }

  lemma {:induction false} BytesConcat(s: seq<Extent>, t: seq<Extent>)
    ensures Bytes(s + t) == Bytes(s) + Bytes(t)
  {
    if s == [] {
      assert s + t == t;
    } else {
      BytesConcat(s[1..], t);
      assert (s + t)[1..] == s[1..] + t;
    }
  }

  // Taking s[i] out of s: what is left covers one block less.
  lemma RemoveAt(s: seq<Extent>, i: nat, x: int)
    requires i < |s|
    ensures Cover(s, x) == Cover(s[..i] + s[i + 1..], x) + Cover([s[i]], x)
    ensures Bytes(s) == Bytes(s[..i] + s[i + 1..]) + s[i].size
  {
    var b := [s[i]];
    assert s == s[..i] + (b + s[i + 1..]);
    CoverConcat(s[..i], b + s[i + 1..], x);
    CoverConcat(b, s[i + 1..], x);
    CoverConcat(s[..i], s[i + 1..], x);
    BytesConcat(s[..i], b + s[i + 1..]);
    BytesConcat(b, s[i + 1..]);
    BytesConcat(s[..i], s[i + 1..]);
    assert Bytes(b) == s[i].size by { assert b[1..] == []; }
  }

  lemma CoverOne(b: Extent, x: int)
    ensures Cover([b], x) == if b.Has(x) then 1 else 0
  {
    assert [b][1..] == [];
  }

  lemma CoverAtLeast(s: seq<Extent>, i: nat, x: int)
    requires i < |s| && s[i].Has(x)
    ensures 1 <= Cover(s, x)
  {
    RemoveAt(s, i, x);
    CoverOne(s[i], x);
  }

  lemma {:induction false} CoverZero(s: seq<Extent>, x: int)
    requires forall i :: 0 <= i < |s| ==> !s[i].Has(x)
    ensures Cover(s, x) == 0
  {
    if s != [] {
      CoverZero(s[1..], x);
    }
  }

  lemma {:induction false} CoverWitness(s: seq<Extent>, x: int) returns (i: nat)
    requires 0 < Cover(s, x)
    ensures i < |s| && s[i].Has(x)
  {
    if s[0].Has(x) {
      i := 0;
    } else {
      var k := CoverWitness(s[1..], x);
      i := k + 1;
    }
  }

  ghost predicate SameCover(s: seq<Extent>, t: seq<Extent>) {
    forall x: int :: Cover(s, x) == Cover(t, x)
  }

  // The lowest block of two canonical lists with the same cover cannot differ.
  lemma HeadDetermined(s: seq<Extent>, t: seq<Extent>)
    requires Canonical(s) && NonEmpty(s) && Canonical(t) && NonEmpty(t)
    requires SameCover(s, t) && s != []
    ensures t != [] && t[0].addr <= s[0].addr
    ensures t[0].addr == s[0].addr ==> s[0].End() <= t[0].End()
  {
    var a := s[0].addr;
    CoverAtLeast(s, 0, a);
    assert Cover(s, a) == Cover(t, a);
    var i := CoverWitness(t, a);
    if t[0].addr == a && t[0].End() < s[0].End() {
      var e := t[0].End();
      CoverAtLeast(s, 0, e);
      assert Cover(s, e) == Cover(t, e);
      CoverZero(t, e);
    }
  }

  /** A canonical list is determined by the addresses it covers. */
  lemma {:induction false} CanonicalUnique(s: seq<Extent>, t: seq<Extent>)
    requires Canonical(s) && NonEmpty(s) && Canonical(t) && NonEmpty(t)
    requires SameCover(s, t)
    ensures s == t
  {
    if s == [] {
      if t != [] {
        HeadDetermined(t, s);
      }
    } else {
      HeadDetermined(s, t);
      HeadDetermined(t, s);
      assert s[0] == t[0];
      forall x: int ensures Cover(s[1..], x) == Cover(t[1..], x) {
        assert Cover(s, x) == Cover(t, x);
      }
      CanonicalUnique(s[1..], t[1..]);
      assert s == [s[0]] + s[1..] && t == [t[0]] + t[1..];
    }
  }

  // Two different blocks of a list that covers nothing twice are disjoint.
  lemma DisjointWhenSingle(s: seq<Extent>, i: nat, j: nat, x: int)
    requires i < j < |s| && s[i].Has(x) && s[j].Has(x)
    ensures 2 <= Cover(s, x)
  {
    RemoveAt(s, j, x);
    CoverOne(s[j], x);
    CoverAtLeast(s[..j] + s[j + 1..], i, x);
  }
}
