/** The limb operations of U1305, none of which leaves the range of its machine integers. */
module U1305 {
  import opened Prelude
  import opened Limbs

  // Fully reduced.
  ghost predicate Reduced(l: seq<U64>) {
    |l| == 5 && Small(l, 5) && Val(l) < P
  }

  const MODULUS: seq<U64> := [0x3ff_fffb, 0x3ff_ffff, 0x3ff_ffff, 0x3ff_ffff, 0x3ff_ffff]

  lemma ModulusValue()
    ensures Small(MODULUS, 5) && Val(MODULUS) == P
  {
    var m := MODULUS;
    assert R(2) == 0x10_0000_0000_0000;
    assert R(4) == 0x100_0000_0000_0000_0000_0000_0000;
    assert ValTo(m, 1) == 0x3ff_fffb;
    assert ValTo(m, 3) == ValTo(m, 1) + 0x3ff_ffff * R(1) + 0x3ff_ffff * R(2);
    assert ValTo(m, 5) == ValTo(m, 3) + 0x3ff_ffff * R(3) + 0x3ff_ffff * R(4);
  }

  lemma {:induction false} ZeroValue(n: nat)
    requires n <= 5
    ensures ValTo([0, 0, 0, 0, 0], n) == 0
  {
    if n > 0 {
      ZeroValue(n - 1);
    }
  }

  // ---- Addition ----

  lemma AddStep(a: seq<U64>, b: seq<U64>, out: seq<U64>, i: nat, carry: nat, v: nat)
    requires |a| == |b| == |out| == 5 && i < 5
    requires ValTo(out, i) + carry * R(i) == ValTo(a, i) + ValTo(b, i)
    requires v == carry + a[i] + b[i] && v % RADIX < 0x1_0000_0000_0000_0000
    ensures var o := out[i := v % RADIX];
            ValTo(o, i + 1) + (v / RADIX) * R(i + 1) == ValTo(a, i + 1) + ValTo(b, i + 1)
  {
    var o := out[i := v % RADIX];
    ValFrame(out, o, i);
    var w := R(i);
    assert v * w == carry * w + a[i] * w + b[i] * w by {
      Distribute(carry + a[i], b[i], w);
      Distribute(carry, a[i], w);
    }
    assert v * w == (v % RADIX) * w + (v / RADIX) * R(i + 1) by {
      Split(v, w);
    }
  }

  lemma Split(v: nat, w: nat)
    ensures v * w == (v % RADIX) * w + (v / RADIX) * (RADIX * w)
  {
    var q, r := v / RADIX, v % RADIX;
    assert v == r + q * RADIX;
    assert (q * RADIX) * w == q * (RADIX * w);
    Distribute(r, q * RADIX, w);
  }

  lemma ValToZero(l: seq<U64>)
    ensures ValTo(l, 0) == 0 && R(0) == 1
  {
  }

  lemma TopLimb(l: seq<U64>, carry: nat)
    requires |l| == 5 && carry <= 1 && l[4] < RADIX
    ensures Val(l[4 := l[4] + carry * RADIX]) == Val(l) + carry * R(5)
  {
    var m := l[4 := l[4] + carry * RADIX];
    ValFrame(l, m, 4);
    Distribute(l[4], carry * RADIX, R(4));
    assert (carry * RADIX) * R(4) == carry * R(5);
  }

  // ---- Comparison and subtraction ----

  // With borrow b, the difference of the first i limbs plus the borrow's weight is
  // what is left, and the borrow is set exactly when the difference is negative.
  lemma BorrowStep(a: seq<U64>, b: seq<U64>, i: nat, borrow: int, v: int)
    requires |a| == |b| == 5 && i < 5 && (borrow == 0 || borrow == 1)
    requires Small(a, 4) && Small(b, 5)
    requires 0 <= ValTo(a, i) - ValTo(b, i) + borrow * R(i) < R(i)
    requires v == (a[i] as int) - b[i] - borrow
    ensures i < 4 && v < 0 ==> 0 <= ValTo(a, i + 1) - ValTo(b, i + 1) + R(i + 1) < R(i + 1)
    ensures i < 4 && v >= 0 ==> 0 <= ValTo(a, i + 1) - ValTo(b, i + 1) < R(i + 1)
    ensures v < 0 <==> ValTo(a, i + 1) < ValTo(b, i + 1)
  {
    hide R, ValTo;
    ValStep(a, i);
    ValStep(b, i);
    var x: int, y: int, w := a[i], b[i], R(i);
    Distribute(x, y, w);
    Distribute(x - y, borrow, w);
    BorrowRange(ValTo(a, i) - ValTo(b, i) + borrow * w, v, w);
  }

  lemma BorrowRange(d: int, v: int, w: nat)
    requires 0 <= d < w
    ensures v < 0 <==> d + v * w < 0
    ensures -RADIX <= v ==> 0 <= d + v * w + RADIX * w
    ensures v < RADIX ==> d + v * w < RADIX * w
    ensures v < 0 ==> d + v * w + RADIX * w < RADIX * w
  {
    if v < 0 {
      Scale(v, -1, w);
    } else {
      Scale(0, v, w);
    }
    if -RADIX <= v {
      Scale(-RADIX, v, w);
    }
    if v < RADIX {
      Scale(v, RADIX - 1, w);
      Distribute(RADIX, 1, w);
    }
  }

  lemma SubStep(a: seq<U64>, b: seq<U64>, out: seq<U64>, i: nat, borrow: int, x: nat, borrow': int)
    requires |a| == |b| == |out| == 5 && i < 5
    requires ValTo(out, i) == ValTo(a, i) - ValTo(b, i) + borrow * R(i)
    requires x == (a[i] as int) - b[i] - borrow + borrow' * RADIX && x < 0x1_0000_0000_0000_0000
    ensures ValTo(out[i := x], i + 1) == ValTo(a, i + 1) - ValTo(b, i + 1) + borrow' * R(i + 1)
  {
    hide R, ValTo;
    var o, w := out[i := x], R(i);
    ValFrame(out, o, i);
    ValStep(o, i);
    ValStep(a, i);
    ValStep(b, i);
    var y: int, z: int := a[i], b[i];
    assert x * w == y * w - z * w - borrow * w + borrow' * (RADIX * w) by {
      Distribute(y - z - borrow, borrow' * RADIX, w);
      Distribute(y - z, borrow, w);
      Distribute(y, z, w);
      assert (borrow' * RADIX) * w == borrow' * (RADIX * w);
    }
  }

  // ---- Multiplication ----

  // x at weight i + j, folded back below weight 5.
  lemma FoldWeight(x: nat, i: nat, j: nat)
    requires 5 <= i + j
    ensures x * (R(i) * R(j)) == (x * 5) * R(i + j - 5) + P * (x * R(i + j - 5))
  {
    var w := R(i + j - 5);
    RAdd(i, j);
    RAdd(i + j - 5, 5);
    RFive();
    assert w * R(5) == w * (P + 5);
    assert x * (w * (P + 5)) == (x * 5) * w + P * (x * w);
  }

  lemma AddToLimb(out: seq<U64>, k: nat, x: nat)
    requires |out| == 5 && k < 5 && out[k] + x < 0x1_0000_0000_0000_0000
    ensures Val(out[k := out[k] + x]) == Val(out) + x * R(k)
  {
    AddToLimbUpTo(out, k, x, 5);
  }

  lemma {:induction false} AddToLimbUpTo(out: seq<U64>, k: nat, x: nat, n: nat)
    requires |out| == 5 && k < 5 && out[k] + x < 0x1_0000_0000_0000_0000 && n <= 5
    ensures ValTo(out[k := out[k] + x], n) == ValTo(out, n) + if k < n then x * R(k) else 0
  {
    if n > 0 {
      AddToLimbUpTo(out, k, x, n - 1);
      if n - 1 == k {
        Distribute(out[k], x, R(k));
      }
    }
  }

  // One product of the double loop.
  lemma ProductStep(a: seq<U64>, b: seq<U64>, i: nat, j: nat, before: int, after: int, q: int, x: nat)
    requires |a| == |b| == 5 && i < 5 && j < 5 && x == (a[i] as int) * (b[j] as int)
    requires before + P * q == ValTo(a, i) * Val(b) + (a[i] * R(i)) * ValTo(b, j)
    requires if i + j < 5 then after == before + x * R(i + j) else after == before + (x * 5) * R(i + j - 5)
    ensures after + P * (q + if i + j < 5 then 0 else x * R(i + j - 5))
         == ValTo(a, i) * Val(b) + (a[i] * R(i)) * ValTo(b, j + 1)
  {
    assert (a[i] * R(i)) * ValTo(b, j + 1) == (a[i] * R(i)) * ValTo(b, j) + x * (R(i) * R(j)) by {
      Regroup(a[i], R(i), ValTo(b, j), b[j], R(j));
    }
    if i + j < 5 {
      RAdd(i, j);
    } else {
      FoldWeight(x, i, j);
      var y := x * R(i + j - 5);
      assert P * (q + y) == P * q + P * y;
    }
  }

  lemma Regroup(a: nat, r: nat, v: nat, b: nat, s: nat)
    ensures (a * r) * (v + b * s) == (a * r) * v + (a * b) * (r * s)
  {
    var c := a * r;
    assert c * (v + b * s) == c * v + c * (b * s);
    assert c * (b * s) == (a * b) * (r * s);
  }

  // ---- Carrying ----

  lemma CarryStep(before: seq<U64>, out: seq<U64>, i: nat, first: nat, carry: nat, v: nat)
    requires |before| == |out| == 5 && i < 5 && v == before[i] + carry
    requires ValTo(out, i) + carry * R(i) == ValTo(before, i) + first
    ensures ValTo(out[i := v % RADIX], i + 1) + (v / RADIX) * R(i + 1) == ValTo(before, i + 1) + first
  {
    hide R, ValTo;
    var o, w := out[i := v % RADIX], R(i);
    ValFrame(out, o, i);
    ValStep(o, i);
    ValStep(before, i);
    Distribute(before[i], carry, w);
    Split(v, w);
  }

  type I64 = x: int | -0x8000_0000_0000_0000 <= x < 0x8000_0000_0000_0000

  class U1305 {
    var limbs: seq<U64>

    constructor (limbs: seq<U64>)
      ensures this.limbs == limbs
    {
      this.limbs := limbs;
    }

    method Add(rhs: seq<U64>)
      requires |limbs| == |rhs| == 5 && Small(limbs, 5) && Small(rhs, 5)
      modifies this
      ensures |limbs| == 5 && Small(limbs, 4) && limbs[4] < 2 * RADIX
      ensures Val(limbs) == old(Val(limbs)) + Val(rhs)
    {
      hide ValTo, R;
      ghost var a := limbs;
      var carry: U64 := 0;
      ValToZero(a);
      ValToZero(rhs);
      for i := 0 to 5
        invariant |limbs| == 5 && carry <= 1
        invariant forall k :: i <= k < 5 ==> limbs[k] == a[k]
        invariant Small(limbs, i)
        invariant ValTo(limbs, i) + carry * R(i) == ValTo(a, i) + ValTo(rhs, i)
      {
        var v: U64 := carry + limbs[i] + rhs[i];
        AddStep(a, rhs, limbs, i, carry, v);
        limbs := limbs[i := v % RADIX];
        carry := v / RADIX;
      }
      // The last limb is below 2^26, so that setting the bits above it is adding them.
      TopLimb(limbs, carry);
      limbs := limbs[4 := limbs[4] + carry * RADIX];
    }

    method GreaterEq(rhs: seq<U64>) returns (r: bool)
      requires |limbs| == |rhs| == 5 && Small(limbs, 4) && limbs[4] < 2 * RADIX && Small(rhs, 5)
      ensures r <==> Val(limbs) >= Val(rhs)
    {
      hide ValTo, R;
      var borrow: I64 := 0;
      ValToZero(limbs);
      ValToZero(rhs);
      for i := 0 to 5
        invariant borrow == 0 || borrow == 1
        invariant i < 5 ==> 0 <= ValTo(limbs, i) - ValTo(rhs, i) + borrow * R(i) < R(i)
        invariant borrow == 1 <==> ValTo(limbs, i) < ValTo(rhs, i)
      {
        var v: I64 := limbs[i] as I64 - rhs[i] as I64 - borrow;
        BorrowStep(limbs, rhs, i, borrow, v);
        borrow := if v < 0 then 1 else 0;
      }
      r := borrow == 0;
    }

    method Sub(rhs: seq<U64>)
      requires |limbs| == |rhs| == 5 && Small(limbs, 4) && limbs[4] < 2 * RADIX && Small(rhs, 5)
      requires Val(limbs) >= Val(rhs)
      modifies this
      ensures |limbs| == 5 && Small(limbs, 4) && limbs[4] <= old(limbs[4])
      ensures Val(limbs) == old(Val(limbs)) - Val(rhs)
    {
      hide ValTo, R;
      ghost var a := limbs;
      var borrow: I64 := 0;
      ValToZero(a);
      ValToZero(rhs);
      for i := 0 to 5
        invariant |limbs| == 5 && (borrow == 0 || borrow == 1)
        invariant forall k :: i <= k < 5 ==> limbs[k] == a[k]
        invariant Small(limbs, Min(i, 4)) && (i == 5 ==> borrow == 0 && limbs[4] <= a[4])
        invariant i < 5 ==> 0 <= ValTo(a, i) - ValTo(rhs, i) + borrow * R(i) < R(i)
        invariant ValTo(limbs, i) == ValTo(a, i) - ValTo(rhs, i) + borrow * R(i)
      {
        var v: I64 := limbs[i] as I64 - rhs[i] as I64 - borrow;
        BorrowStep(a, rhs, i, borrow, v);
        var next: I64 := if v < 0 then 1 else 0;
        var x: U64 := v + next * RADIX;
        SubStep(a, rhs, limbs, i, borrow, x, next);
        limbs := limbs[i := x];
        borrow := next;
      }
    }

    // One subtraction of the modulus, when it fits.
    method MaybeSubModulus()
      requires |limbs| == 5 && Small(limbs, 4) && limbs[4] < 2 * RADIX && Val(limbs) < 2 * P
      modifies this
      ensures Reduced(limbs) && Val(limbs) == old(Val(limbs)) % P
    {
      hide ValTo;
      ModulusValue();
      ZeroValue(5);
      ghost var v := Val(limbs);
      var ge := GreaterEq(MODULUS);
      if ge {
        Sub(MODULUS);
      } else {
        Sub([0, 0, 0, 0, 0]);
      }
      SmallTop(limbs);
    }

    method AddModN(rhs: seq<U64>)
      requires Reduced(limbs) && |rhs| == 5 && Small(rhs, 5) && Val(rhs) < P
      modifies this
      ensures Reduced(limbs) && Val(limbs) == (old(Val(limbs)) + Val(rhs)) % P
    {
      Add(rhs);
      MaybeSubModulus();
    }

    method MulModN(rhs: seq<U64>) returns (r: seq<U64>)
      requires Reduced(limbs) && |rhs| == 5 && Small(rhs, 5)
      ensures Reduced(r) && Val(r) == (Val(limbs) * Val(rhs)) % P
    {
      hide ValTo;
      var out, q := Products(limbs, rhs);
      var carried, _, k := CarryThrice(out);
      var x := new U1305(carried);
      RFive();
      SmallBound(carried, 5);
      x.MaybeSubModulus();
      r := x.limbs;
      assert P * (q + k) == P * q + P * k;
      ModShift(Val(limbs) * Val(rhs), Val(carried), q + k);
    }
  }

  // ---- The two loops of mul_mod_n ----

  lemma ModShift(n: int, x: int, k: int)
    requires n == x + P * k
    ensures n % P == x % P
  {
    var m := x % P;
    var d := x / P;
    assert n == P * (d + k) + m;
    DivModUnique(n, P, d + k, m);
  }

  lemma ProductBound(x: int, y: int)
    requires 0 <= x < RADIX && 0 <= y < RADIX
    ensures 0 <= x * y <= 0x10_0000_0000_0000
  {
    Scale(0, x, y);
    Scale(x, RADIX, y);
    Scale(y, RADIX, RADIX);
    assert RADIX * y == y * RADIX;
  }

  // The schoolbook product, folded modulo P on the way.
  method Products(a: seq<U64>, b: seq<U64>) returns (out: seq<U64>, ghost q: int)
    requires |a| == |b| == 5 && Small(a, 5) && Small(b, 5)
    ensures |out| == 5 && Val(out) + P * q == Val(a) * Val(b)
    ensures forall k :: 0 <= k < 5 ==> out[k] <= 0x1000_0000_0000_0000
  {
    hide ValTo, R;
    out := [0, 0, 0, 0, 0];
    q := 0;
    ZeroValue(5);
    ValToZero(a);
    for i := 0 to 5
      invariant |out| == 5 && Val(out) + P * q == ValTo(a, i) * Val(b)
      invariant forall k :: 0 <= k < 5 ==> out[k] <= 0x50_0000_0000_0000 * (5 * i)
    {
      ValToZero(b);
      for j := 0 to 5
        invariant |out| == 5 && Val(out) + P * q == ValTo(a, i) * Val(b) + (a[i] * R(i)) * ValTo(b, j)
        invariant forall k :: 0 <= k < 5 ==> out[k] <= 0x50_0000_0000_0000 * (5 * i + j)
      {
        ProductBound(a[i], b[j]);
        var k, v: U64 := i + j, a[i] * b[j];
        ghost var before, x := Val(out), v;
        if k >= 5 {
          k := k - 5;
          v := v * 5;
        }
        AddToLimb(out, k, v);
        out := out[k := out[k] + v];
        ProductStep(a, b, i, j, before, Val(out), q, x);
        q := q + if i + j < 5 then 0 else x * R(i + j - 5);
      }
      RowDone(a, i, Val(b));
    }
  }

  lemma RowDone(a: seq<U64>, i: nat, b: nat)
    requires |a| == 5 && i < 5
    ensures ValTo(a, i) * b + (a[i] * R(i)) * b == ValTo(a, i + 1) * b
  {
    hide R, ValTo;
    ValStep(a, i);
    Distribute(ValTo(a, i), a[i] * R(i), b);
  }

  method CarryPass(before: seq<U64>, first: U64) returns (out: seq<U64>, carry: U64)
    requires |before| == 5 && first <= 0x40_0000_0000
    requires forall k :: 0 <= k < 5 ==> before[k] <= 0x1000_0000_0000_0000
    ensures |out| == 5 && Small(out, 5) && carry <= 0x8_0000_0000
    ensures Val(out) + carry * R(5) == Val(before) + first
  {
    hide ValTo, R;
    out, carry := before, first;
    ValToZero(before);
    for i := 0 to 5
      invariant |out| == 5 && Small(out, i) && forall k :: i <= k < 5 ==> out[k] == before[k]
      invariant carry <= 0x40_0000_0000 && (i > 0 ==> carry <= 0x8_0000_0000)
      invariant ValTo(out, i) + carry * R(i) == ValTo(before, i) + first
    {
      var v: U64 := out[i] + carry;
      CarryStep(before, out, i, first, carry, v);
      out := out[i := v % RADIX];
      carry := v / RADIX;
    }
  }

  // Three passes, the carry out of each entering the next five times; nothing is left
  // to carry at the end.
  method CarryThrice(before: seq<U64>) returns (out: seq<U64>, carry: U64, ghost k: int)
    requires |before| == 5
    requires forall i :: 0 <= i < 5 ==> before[i] <= 0x1000_0000_0000_0000
    ensures |out| == 5 && Small(out, 5) && Val(out) + P * k == Val(before)
    ensures carry == 0
  {
    hide ValTo, R;
    out, carry, k := before, 0, 0;
    RFive();
    for t := 0 to 3
      invariant |out| == 5 && carry <= 0x40_0000_0000 && Val(out) + carry + P * k == Val(before)
      invariant t == 0 ==> carry == 0 && out == before
      invariant t >= 1 ==> Small(out, 5)
      invariant t == 2 ==> carry == 0 || (carry == 5 && Val(out) < 0x40_0000_0000)
      invariant t == 3 ==> carry == 0
    {
      ghost var v, c := Val(out), carry;
      if t > 0 {
        SmallBound(out, 5);
      }
      var o, d := CarryPass(out, carry);
      SmallBound(o, 5);
      CarryLeft(v + c, Val(o), d);
      out, carry := o, d * 5;
      k := k + d;
      assert P * k == P * (k - d) + P * d;
    }
  }

  // A sum below twice the top weight leaves a carry of at most one.
  lemma CarryLeft(sum: nat, low: nat, carry: nat)
    requires low < P + 5 && low + carry * (P + 5) == sum
    ensures sum < P + 5 ==> carry == 0
    ensures sum < P + 5 + 0x40_0000_0000 ==> carry <= 1 && (carry == 1 ==> low < 0x40_0000_0000)
    ensures low + carry * 5 + P * carry == sum
  {
    if carry >= 2 {
      Scale(2, carry, P + 5);
    }
  }

  lemma SmallTop(l: seq<U64>)
    requires |l| == 5 && Small(l, 4) && Val(l) < P
    ensures Small(l, 5)
  {
    RFive();
    assert ValTo(l, 5) == ValTo(l, 4) + l[4] * R(4);
    if l[4] >= RADIX {
      Scale(RADIX, l[4], R(4));
    }
  }
}
