/** Numbers in five limbs of 26 bits, and arithmetic modulo 2^130 - 5. */
module Limbs {
  import opened Prelude

  type U64 = x: int | 0 <= x < 0x1_0000_0000_0000_0000

  const RADIX: int := 0x400_0000  // 2^26

  const P: int := 0x3_ffff_ffff_ffff_ffff_ffff_ffff_ffff_fffb  // 2^130 - 5

  // The weight of limb k.
  function R(k: nat): (w: nat)
    ensures w >= 1
  {
    if k == 0 then 1 else RADIX * R(k - 1)
  }

  // The number held by the first n limbs.
  ghost function ValTo(l: seq<U64>, n: nat): (v: nat)
    requires n <= |l|
  {
    if n == 0 then 0 else ValTo(l, n - 1) + l[n - 1] * R(n - 1)
  }

  ghost function Val(l: seq<U64>): nat {
    ValTo(l, |l|)
  }

  // The first n limbs are below 2^26.
  ghost predicate Small(l: seq<U64>, n: nat) {
    n <= |l| && forall i :: 0 <= i < n ==> l[i] < RADIX
  }

  lemma {:induction false} RAdd(i: nat, j: nat)
    ensures R(i + j) == R(i) * R(j)
  {
    if j > 0 {
      RAdd(i, j - 1);
      assert R(i) * R(j) == RADIX * (R(i) * R(j - 1));
    }
  }

  lemma RFive()
    ensures R(5) == P + 5
  {
    assert R(2) == 0x10_0000_0000_0000;
    assert R(4) == 0x100_0000_0000_0000_0000_0000_0000;
  }

  lemma {:induction false} SmallBound(l: seq<U64>, n: nat)
    requires Small(l, n)
    ensures ValTo(l, n) < R(n)
  {
    if n > 0 {
      SmallBound(l, n - 1);
      Scale(l[n - 1] + 1, RADIX, R(n - 1));
      Distribute(l[n - 1], 1, R(n - 1));
    }
  }

  lemma ValStep(l: seq<U64>, i: nat)
    requires i < |l|
    ensures ValTo(l, i + 1) == ValTo(l, i) + l[i] * R(i) && R(i + 1) == RADIX * R(i)
  {
  }

  // Changing a limb changes no shorter prefix.
  lemma {:induction false} ValFrame(a: seq<U64>, b: seq<U64>, n: nat)
    requires n <= |a| && n <= |b| && forall i :: 0 <= i < n ==> a[i] == b[i]
    ensures ValTo(a, n) == ValTo(b, n)
  {
    if n > 0 {
      ValFrame(a, b, n - 1);
    }
  }
}
