/** Poly1305: blocks of bytes to numbers, the accumulator, and the tag (section 2.5 of RFC 7539). */
module Poly1305 {
  import opened Prelude
  import opened Limbs
  import U = U1305

  // ---- Little-endian numbers ----

  function Pow256(k: nat): (w: nat)
    ensures w >= 1
  {
    if k == 0 then 1 else 256 * Pow256(k - 1)
  }

  function LeTo(data: seq<Byte>, n: nat): nat
    requires n <= |data|
  {
    if n == 0 then 0 else LeTo(data, n - 1) + data[n - 1] * Pow256(n - 1)
  }

  // The number with the given bytes, least significant first.
  function Le(data: seq<Byte>): nat {
    LeTo(data, |data|)
  }

  lemma {:induction false} LeBound(data: seq<Byte>, n: nat)
    requires n <= |data|
    ensures LeTo(data, n) < Pow256(n)
  {
    if n > 0 {
      LeBound(data, n - 1);
      var b: int := data[n - 1];
      Scale(b + 1, 256, Pow256(n - 1));
      Distribute(b, 1, Pow256(n - 1));
    }
  }

  lemma {:induction false} LeFrame(a: seq<Byte>, b: seq<Byte>, n: nat)
    requires n <= |a| && n <= |b| && forall i :: 0 <= i < n ==> a[i] == b[i]
    ensures LeTo(a, n) == LeTo(b, n)
  {
    if n > 0 {
      LeFrame(a, b, n - 1);
    }
  }

  // Zero bytes at the end do not count.
  lemma {:induction false} LePadded(data: seq<Byte>, m: nat, n: nat)
    requires m <= n <= |data| && forall i :: m <= i < n ==> data[i] == 0
    ensures LeTo(data, n) == LeTo(data, m)
  {
    if m < n {
      LePadded(data, m, n - 1);
    }
  }

  lemma Powers256()
    ensures Pow256(4) == 0x1_0000_0000 && Pow256(8) == 0x1_0000_0000_0000_0000
    ensures Pow256(12) == 0x1_0000_0000_0000_0000_0000_0000
    ensures Pow256(16) == 0x1_0000_0000_0000_0000_0000_0000_0000_0000
  {
    assert Pow256(2) == 0x1_0000;
    assert Pow256(4) == 0x1_0000_0000;
    assert Pow256(6) == 0x1_0000_0000_0000;
    assert Pow256(8) == 0x1_0000_0000_0000_0000;
    assert Pow256(10) == 0x1_0000_0000_0000_0000_0000;
    assert Pow256(12) == 0x1_0000_0000_0000_0000_0000_0000;
    assert Pow256(14) == 0x1_0000_0000_0000_0000_0000_0000_0000;
  }

  // ---- from_le_bytes ----

  function At(data: seq<Byte>, i: nat): (b: int)
    requires i < |data|
    ensures 0 <= b < 256
  {
    data[i]
  }

  function U32Of(a: int, b: int, c: int, e: int): int {
    a + 0x100 * b + 0x1_0000 * c + 0x100_0000 * e
  }

  // u32::from_le_bytes of the four bytes from position i.
  function U32At(data: seq<Byte>, i: nat): nat
    requires i + 4 <= |data|
  {
    U32Of(At(data, i), At(data, i + 1), At(data, i + 2), At(data, i + 3))
  }

  function FromLeBytes(data: seq<Byte>): (l: seq<U64>)
    requires |data| == 16
    ensures |l| == 5
  {
    [U32At(data, 0) % RADIX,
     (U32At(data, 3) / 4) % RADIX,
     (U32At(data, 6) / 16) % RADIX,
     (U32At(data, 9) / 64) % RADIX,
     (At(data, 13) + 0x100 * At(data, 14) + 0x1_0000 * At(data, 15)) % RADIX]
  }

  lemma Window(x: int, low: int, q: int)
    requires x == low + RADIX * q && 0 <= low < RADIX
    ensures x % RADIX == low
  {
    DivModUnique(x, RADIX, q, low);
  }

  // Byte d[3] is shared by limbs 0 and 1, byte d[6] by 1 and 2, byte d[9] by 2 and 3.
  lemma LimbOfBytes(d: seq<Byte>)
    requires |d| == 16
    ensures var l := FromLeBytes(d);
            && l[0] == At(d, 0) + 0x100 * At(d, 1) + 0x1_0000 * At(d, 2) + 0x100_0000 * (At(d, 3) % 4)
            && l[1] == At(d, 3) / 4 + 0x40 * At(d, 4) + 0x4000 * At(d, 5) + 0x40_0000 * (At(d, 6) % 16)
            && l[2] == At(d, 6) / 16 + 0x10 * At(d, 7) + 0x1000 * At(d, 8) + 0x10_0000 * (At(d, 9) % 64)
            && l[3] == At(d, 9) / 64 + 0x4 * At(d, 10) + 0x400 * At(d, 11) + 0x4_0000 * At(d, 12)
            && l[4] == At(d, 13) + 0x100 * At(d, 14) + 0x1_0000 * At(d, 15)
  {
    hide At, U32Of;
    LowLimb(At(d, 0), At(d, 1), At(d, 2), At(d, 3));
    SecondLimb(At(d, 3), At(d, 4), At(d, 5), At(d, 6));
    ThirdLimb(At(d, 6), At(d, 7), At(d, 8), At(d, 9));
    FourthLimb(At(d, 9), At(d, 10), At(d, 11), At(d, 12));
  }

  lemma LowLimb(a: int, b: int, c: int, e: int)
    requires 0 <= a < 256 && 0 <= b < 256 && 0 <= c < 256 && 0 <= e < 256
    ensures U32Of(a, b, c, e) % RADIX
         == a + 0x100 * b + 0x1_0000 * c + 0x100_0000 * (e % 4)
  {
    Window(a + 0x100 * b + 0x1_0000 * c + 0x100_0000 * e, a + 0x100 * b + 0x1_0000 * c + 0x100_0000 * (e % 4), e / 4);
  }

  lemma SecondLimb(a: int, b: int, c: int, e: int)
    requires 0 <= a < 256 && 0 <= b < 256 && 0 <= c < 256 && 0 <= e < 256
    ensures (U32Of(a, b, c, e) / 4) % RADIX
         == a / 4 + 0x40 * b + 0x4000 * c + 0x40_0000 * (e % 16)
  {
    var x := a / 4 + 0x40 * b + 0x4000 * c + 0x40_0000 * e;
    DivModUnique(U32Of(a, b, c, e), 4, x, a % 4);
    Window(x, a / 4 + 0x40 * b + 0x4000 * c + 0x40_0000 * (e % 16), e / 16);
  }

  lemma ThirdLimb(a: int, b: int, c: int, e: int)
    requires 0 <= a < 256 && 0 <= b < 256 && 0 <= c < 256 && 0 <= e < 256
    ensures (U32Of(a, b, c, e) / 16) % RADIX
         == a / 16 + 0x10 * b + 0x1000 * c + 0x10_0000 * (e % 64)
  {
    var x := a / 16 + 0x10 * b + 0x1000 * c + 0x10_0000 * e;
    DivModUnique(U32Of(a, b, c, e), 16, x, a % 16);
    Window(x, a / 16 + 0x10 * b + 0x1000 * c + 0x10_0000 * (e % 64), e / 64);
  }

  lemma FourthLimb(a: int, b: int, c: int, e: int)
    requires 0 <= a < 256 && 0 <= b < 256 && 0 <= c < 256 && 0 <= e < 256
    ensures (U32Of(a, b, c, e) / 64) % RADIX
         == a / 64 + 0x4 * b + 0x400 * c + 0x4_0000 * e
  {
    var x := a / 64 + 0x4 * b + 0x400 * c + 0x4_0000 * e;
    DivModUnique(U32Of(a, b, c, e), 64, x, a % 64);
    Window(x, x, 0);
  }

  lemma LeSixteen(d: seq<Byte>)
    requires |d| == 16
    ensures Le(d) == U32At(d, 0) + U32At(d, 4) * 0x1_0000_0000 + U32At(d, 8) * 0x1_0000_0000_0000_0000
                     + U32At(d, 12) * 0x1_0000_0000_0000_0000_0000_0000
  {
    hide LeTo, Pow256, U32At, U32Of, At;
    LeStart(d);
    Powers256();
    LeFour(d, 0);
    LeFour(d, 4);
    LeFour(d, 8);
    LeFour(d, 12);
  }

  lemma LeStart(d: seq<Byte>)
    ensures LeTo(d, 0) == 0 && Pow256(0) == 1
  {
  }

  lemma LeStep(d: seq<Byte>, i: nat)
    requires i < |d|
    ensures LeTo(d, i + 1) == LeTo(d, i) + At(d, i) * Pow256(i) && Pow256(i + 1) == 256 * Pow256(i)
  {
  }

  lemma LeFour(d: seq<Byte>, i: nat)
    requires i + 4 <= |d|
    ensures LeTo(d, i + 4) == LeTo(d, i) + U32At(d, i) * Pow256(i)
  {
    hide LeTo, Pow256, At, U32Of;
    LeStep(d, i);
    LeStep(d, i + 1);
    LeStep(d, i + 2);
    LeStep(d, i + 3);
    Horner4(At(d, i), At(d, i + 1), At(d, i + 2), At(d, i + 3), Pow256(i));
  }

  lemma Horner4(a: int, b: int, c: int, e: int, w: int)
    ensures U32Of(a, b, c, e) * w == a * w + b * (256 * w) + c * (256 * (256 * w)) + e * (256 * (256 * (256 * w)))
  {
    Distribute(a + 0x100 * b + 0x1_0000 * c, 0x100_0000 * e, w);
    Distribute(a + 0x100 * b, 0x1_0000 * c, w);
    Distribute(a, 0x100 * b, w);
  }

  lemma FromLeBytesValue(data: seq<Byte>)
    requires |data| == 16
    ensures Small(FromLeBytes(data), 5) && Val(FromLeBytes(data)) == Le(data)
  {
    var l, d := FromLeBytes(data), data;
    LimbOfBytes(data);
    LeSixteen(data);
    FiveLimbs(l);
  }

  function Limb(l: seq<U64>, i: nat): int
    requires i < |l|
  {
    l[i]
  }

  lemma FiveLimbs(l: seq<U64>)
    requires |l| == 5
    ensures Val(l) == Limb(l, 0) + Limb(l, 1) * 0x400_0000 + Limb(l, 2) * 0x10_0000_0000_0000
                      + Limb(l, 3) * 0x4000_0000_0000_0000_0000
                      + Limb(l, 4) * 0x100_0000_0000_0000_0000_0000_0000
  {
    assert R(1) == 0x400_0000 && R(2) == 0x10_0000_0000_0000;
    assert R(3) == 0x4000_0000_0000_0000_0000 && R(4) == 0x100_0000_0000_0000_0000_0000_0000;
    assert ValTo(l, 1) == ValTo(l, 0) + l[0] * R(0);
    assert ValTo(l, 3) == ValTo(l, 1) + l[1] * R(1) + l[2] * R(2);
    assert ValTo(l, 5) == ValTo(l, 3) + l[3] * R(3) + l[4] * R(4);
  }

  // ---- add_pow2 ----

  // Setting bit s of x.
  function SetBit(x: nat, s: nat): nat {
    if (x / Pow2(s)) % 2 == 1 then x else x + Pow2(s)
  }

  lemma {:induction false} WeightIsPow2(k: nat)
    ensures R(k) == Pow2(26 * k)
  {
    if k > 0 {
      WeightIsPow2(k - 1);
      Pow2Add(26 * (k - 1), 26);
      Pow26();
    }
  }

  lemma {:induction false} LimbBelowValue(l: seq<U64>, k: nat, n: nat)
    requires k < n <= |l|
    ensures l[k] * R(k) <= ValTo(l, n)
  {
    hide ValTo, R;
    ValStep(l, n - 1);
    var x: int := l[n - 1];
    assert x * R(n - 1) >= 0;
    if k < n - 1 {
      LimbBelowValue(l, k, n - 1);
    }
  }

  // A bit above the number is not set in its limb yet.
  lemma BitIsFree(l: seq<U64>, p: nat)
    requires |l| == 5 && Val(l) < Pow2(p) && p < 130
    ensures l[p / 26] < Pow2(p % 26) && 2 * Pow2(p % 26) <= RADIX && Pow2(p) == Pow2(p % 26) * R(p / 26)
  {
    hide Pow2, R, ValTo;
    var k, b := p / 26, p % 26;
    WeightIsPow2(k);
    Pow2Add(b, 26 * k);
    LimbBelowValue(l, k, 5);
    if l[k] >= Pow2(b) {
      Scale(Pow2(b), l[k], R(k));
    }
    DoublePow2Bound(b);
  }

  lemma DoublePow2Bound(b: nat)
    requires b < 26
    ensures 2 * Pow2(b) <= RADIX
  {
    Pow2Monotone(b + 1, 26);
    Pow26();
  }

  lemma SetFreeBit(x: nat, s: nat)
    requires x < Pow2(s)
    ensures SetBit(x, s) == x + Pow2(s)
  {
    hide Pow2;
    assert x / Pow2(s) == 0;
  }

  method AddPow2(l: seq<U64>, p: nat) returns (r: seq<U64>)
    requires |l| == 5 && Small(l, 5) && Val(l) < Pow2(p) && p < 130
    ensures |r| == 5 && Small(r, 5) && Val(r) == Val(l) + Pow2(p)
  {
    hide Pow2, SetBit;
    BitIsFree(l, p);
    SetFreeBit(l[p / 26], p % 26);
    U.AddToLimb(l, p / 26, Pow2(p % 26));
    r := l[p / 26 := SetBit(l[p / 26], p % 26)];
  }

  // ---- to_le_bytes ----

  // What is still to be written: the bits in acc and the limbs from n on.
  ghost function Rest(l: seq<U64>, n: nat): nat
    requires n <= |l|
    decreases |l| - n
  {
    if n == |l| then 0 else l[n] + RADIX * Rest(l, n + 1)
  }

  lemma {:induction false} RestValue(l: seq<U64>, n: nat)
    requires n <= |l|
    ensures Val(l) == ValTo(l, n) + R(n) * Rest(l, n)
    decreases |l| - n
  {
    hide R, ValTo;
    if n < |l| {
      RestValue(l, n + 1);
      ValStep(l, n);
      RestStep(ValTo(l, n), R(n), l[n], Rest(l, n + 1));
    }
  }

  lemma RestStep(v: nat, w: nat, x: nat, r: nat)
    ensures (v + x * w) + (RADIX * w) * r == v + w * (x + RADIX * r)
  {
    assert (RADIX * w) * r == w * (RADIX * r);
    assert w * (x + RADIX * r) == w * x + w * (RADIX * r);
  }

  // Taking one more limb into acc.
  lemma TakeLimb(acc: nat, bits: nat, limb: nat, rest: nat)
    ensures acc + Pow2(bits) * (limb + RADIX * rest) == (acc + limb * Pow2(bits)) + Pow2(bits + 26) * rest
  {
    Pow2Add(bits, 26);
    Pow26();
    var w := Pow2(bits);
    assert w * (limb + RADIX * rest) == w * limb + w * (RADIX * rest);
    assert w * (RADIX * rest) == (w * RADIX) * rest;
  }

  lemma Pow26()
    ensures Pow2(26) == RADIX
  {
    assert Pow2(6) == 64;
    Pow2Add(6, 6);
    Pow2Add(12, 12);
    Pow2Add(24, 2);
  }

  // Giving out one byte.
  lemma GiveByte(acc: nat, bits: nat, rest: nat)
    requires bits >= 8
    ensures acc + Pow2(bits) * rest == acc % 256 + 256 * (acc / 256 + Pow2(bits - 8) * rest)
  {
    Pow2Add(bits - 8, 8);
    assert Pow2(8) == 256;
    var w := Pow2(bits - 8);
    assert (w * 256) * rest == 256 * (w * rest);
  }

  lemma LeAppend(data: seq<Byte>, b: Byte)
    ensures Le(data + [b]) == Le(data) + b * Pow256(|data|)
  {
    LeFrame(data, data + [b], |data|);
  }

  lemma AccBound(acc: nat, bits: nat, limb: nat)
    requires acc < Pow2(bits) && bits < 8 && limb < 2 * RADIX
    ensures limb < RADIX ==> acc + limb * Pow2(bits) < Pow2(bits + 26)
    ensures acc + limb * Pow2(bits) < Pow2(bits + 27) <= 0x10_0000_0000
  {
    var w := Pow2(bits);
    assert Pow2(bits + 26) == w * RADIX && w <= 256 && Pow2(bits + 27) == 2 * Pow2(bits + 26) by {
      Pow2Add(bits, 26);
      Pow26();
      Pow2Monotone(bits, 8);
      assert Pow2(8) == 256;
    }
    hide Pow2;
    if limb < RADIX {
      Scale(limb + 1, RADIX, w);
    }
    Scale(limb + 1, 2 * RADIX, w);
    Distribute(limb, 1, w);
    assert w * RADIX <= 256 * RADIX;
  }

  lemma ByteBound(acc: nat, bits: nat)
    requires acc < Pow2(bits) && bits >= 8
    ensures acc / 256 < Pow2(bits - 8)
  {
    Pow2Add(bits - 8, 8);
    assert Pow2(8) == 256;
  }

  // Bytes written, bits held and limbs to come still make up the number.
  ghost predicate Pending(l: seq<U64>, data: seq<Byte>, acc: nat, bits: nat, limb: nat) {
    limb <= |l| && Le(data) + Pow256(|data|) * (acc + Pow2(bits) * Rest(l, limb)) == Val(l)
  }

  lemma PendingLimb(l: seq<U64>, data: seq<Byte>, acc: nat, bits: nat, limb: nat)
    requires limb < |l| && Pending(l, data, acc, bits, limb)
    ensures Pending(l, data, acc + l[limb] * Pow2(bits), bits + 26, limb + 1)
  {
    hide ValTo, R, LeTo, Pow256, Rest, Pow2;
    RestUnfold(l, limb);
    TakeLimb(acc, bits, l[limb], Rest(l, limb + 1));
  }

  lemma PendingByte(l: seq<U64>, data: seq<Byte>, acc: nat, bits: nat, limb: nat)
    requires bits >= 8 && Pending(l, data, acc, bits, limb)
    ensures Pending(l, data + [acc % 256], acc / 256, bits - 8, limb)
  {
    hide ValTo, R, LeTo, Pow256, Rest, Pow2;
    GiveByte(acc, bits, Rest(l, limb));
    LeAppend(data, acc % 256);
    NextByte(Le(data), Pow256(|data|), acc % 256, acc / 256 + Pow2(bits - 8) * Rest(l, limb));
    Pow256Step(|data|);
  }

  lemma PendingStart(l: seq<U64>)
    ensures Pending(l, [], 0, 0, 0) && Pow2(0) == 1
  {
    RestValue(l, 0);
  }

  lemma PendingEnd(l: seq<U64>, data: seq<Byte>, acc: nat, bits: nat, limb: nat)
    requires Pending(l, data, acc, bits, limb)
    ensures Le(data) == Val(l) % Pow256(|data|)
  {
    hide ValTo, R, LeTo, Pow256, Rest, Pow2;
    LeBound(data, |data|);
    LowBytes(Val(l), Le(data), Pow256(|data|), acc + Pow2(bits) * Rest(l, limb));
  }

  // Only the least significant 16 bytes.
  method ToLeBytes(l: seq<U64>) returns (data: seq<Byte>)
    requires |l| == 5 && Small(l, 4) && l[4] < 2 * RADIX
    ensures |data| == 16 && Le(data) == Val(l) % Pow256(16)
  {
    hide ValTo, R, LeTo, Pow256, Rest, Pending, Pow2;
    data := [];
    var limb, bits := 0, 0;
    var acc: U64 := 0;
    PendingStart(l);
    for i := 0 to 16
      invariant |data| == i && limb <= 5 && bits == 26 * limb - 8 * i && bits >= 0
      invariant acc < Pow2(if limb < 5 then bits else bits + 1)
      invariant Pending(l, data, acc, bits, limb)
    {
      while bits < 8 && limb < 5
        invariant limb <= 5 && bits == 26 * limb - 8 * i && bits >= 0
        invariant acc < Pow2(if limb < 5 then bits else bits + 1)
        invariant Pending(l, data, acc, bits, limb)
      {
        PendingLimb(l, data, acc, bits, limb);
        AccBound(acc, bits, l[limb]);
        // acc is below 2^bits, so that setting the bits above it is adding them.
        acc := acc + l[limb] * Pow2(bits);
        bits := bits + 26;
        limb := limb + 1;
      }
      PendingByte(l, data, acc, bits, limb);
      ByteBound(acc, if limb < 5 then bits else bits + 1);
      data := data + [acc % 256];
      acc := acc / 256;
      bits := bits - 8;
    }
    PendingEnd(l, data, acc, bits, limb);
  }

  lemma RestUnfold(l: seq<U64>, n: nat)
    requires n < |l|
    ensures Rest(l, n) == l[n] + RADIX * Rest(l, n + 1)
  {
  }

  lemma NextByte(v: nat, w: nat, b: nat, x: nat)
    ensures v + w * (b + 256 * x) == (v + b * w) + (256 * w) * x
  {
    assert w * (b + 256 * x) == w * b + w * (256 * x);
    assert w * (256 * x) == (256 * w) * x;
  }

  lemma Pow256Step(i: nat)
    ensures Pow256(i + 1) == 256 * Pow256(i)
  {
  }

  lemma LowBytes(v: nat, low: nat, w: nat, x: nat)
    requires low + w * x == v && low < w
    ensures v % w == low
  {
    var q, r := v / w, v % w;
    assert v == w * q + r;
    assert w * (x - q) == r - low;
    if x > q {
      Scale(1, x - q, w);
    } else if x < q {
      Scale(1, q - x, w);
    }
  }

  // ---- The polynomial ----

  function Exp(r: nat, n: nat): nat {
    if n == 0 then 1 else r * Exp(r, n - 1)
  }

  // b[0] * r^n + b[1] * r^(n-1) + ... + b[n-1] * r
  ghost function Polynomial(blocks: seq<nat>, r: nat): nat {
    if blocks == [] then 0 else blocks[0] * Exp(r, |blocks|) + Polynomial(blocks[1..], r)
  }

  // One block at a time, reduced after each.
  ghost function Accumulated(blocks: seq<nat>, r: nat): nat {
    if blocks == [] then 0
    else ((Accumulated(blocks[..|blocks| - 1], r) + blocks[|blocks| - 1]) * r) % P
  }

  lemma {:induction false} PolynomialSnoc(blocks: seq<nat>, b: nat, r: nat)
    ensures Polynomial(blocks + [b], r) == (Polynomial(blocks, r) + b) * r
  {
    if blocks == [] {
      assert (blocks + [b])[1..] == [];
      assert Exp(r, 1) == r * Exp(r, 0);
    } else {
      assert (blocks + [b])[1..] == blocks[1..] + [b];
      PolynomialSnoc(blocks[1..], b, r);
      var x, e, y := blocks[0], Exp(r, |blocks|), Polynomial(blocks[1..], r) + b;
      assert x * (r * e) == (x * e) * r;
      Distribute(x * e, y, r);
    }
  }

  lemma {:induction false} AccumulatedIsPolynomial(blocks: seq<nat>, r: nat)
    ensures Accumulated(blocks, r) == Polynomial(blocks, r) % P
  {
    if blocks != [] {
      var n := |blocks| - 1;
      var b, x := blocks[n], Polynomial(blocks[..n], r);
      AccumulatedIsPolynomial(blocks[..n], r);
      assert blocks == blocks[..n] + [b];
      PolynomialSnoc(blocks[..n], b, r);
      assert Accumulated(blocks, r) == ((x % P + b) * r) % P;
      hide Accumulated, Polynomial;
      U.ModShift(x + b, x % P + b, x / P);
      ReduceOnce(x % P + b, r);
      ReduceOnce(x + b, r);
    }
  }

  // ---- Blocks of a message part ----

  // The bytes of a block with a bit set after them; when padding, after sixteen bytes.
  function BlockValue(chunk: seq<Byte>, pad: bool): nat {
    Le(chunk) + Pow2(if pad then 128 else 8 * |chunk|)
  }

  function Blocks(data: seq<Byte>, pad: bool): seq<nat> {
    if data == [] then []
    else if |data| <= 16 then [BlockValue(data, pad)]
    else [BlockValue(data[..16], pad)] + Blocks(data[16..], pad)
  }

  lemma {:induction false} Pow256IsPow2(k: nat)
    ensures Pow256(k) == Pow2(8 * k)
  {
    if k > 0 {
      Pow256IsPow2(k - 1);
      Pow2Add(8 * (k - 1), 8);
      assert Pow2(8) == 256;
    }
  }

  // The limbs of one block.
  method BlockLimbs(chunk: seq<Byte>, pad: bool) returns (n: seq<U64>)
    requires 0 < |chunk| <= 16
    ensures |n| == 5 && Small(n, 5) && Val(n) == BlockValue(chunk, pad) < P
  {
    hide LeTo, Pow2, Pow256, ValTo;
    var buf := chunk + seq(16 - |chunk|, _ => 0);
    LePadded(buf, |chunk|, 16);
    LeFrame(buf, chunk, |chunk|);
    LeBound(chunk, |chunk|);
    Pow256IsPow2(|chunk|);
    Pow2Monotone(8 * |chunk|, 128);
    FromLeBytesValue(buf);
    BelowModulus();
    n := AddPow2(FromLeBytes(buf), if pad then 128 else 8 * |chunk|);
  }

  lemma BelowModulus()
    ensures 2 * Pow2(128) < P
  {
    Pow256IsPow2(16);
    Powers256();
  }

  // A block is its bytes and a one after them, padded with zeros first when asked for.
  lemma BlockIsBytes(chunk: seq<Byte>, pad: bool)
    requires |chunk| <= 16
    ensures BlockValue(chunk, pad) == Le((if pad then chunk + seq(16 - |chunk|, _ => 0) else chunk) + [1])
  {
    hide LeTo, Pow2, Pow256;
    var bytes := if pad then chunk + seq(16 - |chunk|, _ => 0) else chunk;
    LeAppend(bytes, 1);
    Pow256IsPow2(|bytes|);
    LePadded(bytes, |chunk|, |bytes|);
    LeFrame(bytes, chunk, |chunk|);
  }

  // Sixteen bytes to a block, and the rest to the last.
  lemma {:induction false} BlockAt(data: seq<Byte>, pad: bool, i: nat)
    requires i < (|data| + 15) / 16
    ensures |Blocks(data, pad)| == (|data| + 15) / 16
    ensures Blocks(data, pad)[i] == BlockValue(data[16 * i..Min(16 * i + 16, |data|)], pad)
    decreases |data|
  {
    hide BlockValue;
    if |data| <= 16 {
      assert data[0..|data|] == data;
    } else {
      var rest := data[16..];
      BlockAt(rest, pad, if i > 0 then i - 1 else 0);
      if i > 0 {
        assert rest[16 * (i - 1)..Min(16 * (i - 1) + 16, |rest|)] == data[16 * i..Min(16 * i + 16, |data|)];
      }
    }
  }

  // ---- Clearing bits of the key ----

  lemma {:induction false} LeSplit(data: seq<Byte>, i: nat, n: nat) returns (h: nat)
    requires i <= n <= |data|
    ensures LeTo(data, n) == LeTo(data, i) + Pow256(i) * h
  {
    hide Pow256, LeTo, At;
    if i == n {
      h := 0;
    } else {
      var g := LeSplit(data, i, n - 1);
      LeStep(data, n - 1);
      PowerSplit(i, n - 1 - i);
      h := g + Pow256(n - 1 - i) * At(data, n - 1);
      Gathered(Pow256(i), g, Pow256(n - 1 - i), At(data, n - 1));
    }
  }

  lemma PowerSplit(i: nat, k: nat)
    ensures Pow256(i + k) == Pow256(i) * Pow256(k)
  {
    hide Pow256, Pow2;
    Pow256IsPow2(i);
    Pow256IsPow2(k);
    Pow256IsPow2(i + k);
    Pow2Add(8 * i, 8 * k);
  }

  lemma Gathered(w: nat, g: nat, v: nat, b: nat)
    ensures w * (g + v * b) == w * g + b * (w * v)
  {
    Distribute(g, v * b, w);
    assert w * (v * b) == b * (w * v);
  }

  lemma EvenAbove(d: nat, p: nat, e: nat)
    requires p > 0
    ensures ((d + p * (2 * e)) / p) % 2 == (d / p) % 2
  {
    var q := d / p;
    assert d + p * (2 * e) == p * (q + 2 * e) + d % p by {
      Distribute(q, 2 * e, p);
    }
    DivModUnique(d + p * (2 * e), p, q + 2 * e, d % p);
  }

  lemma Regrouped(p: nat, m: nat, h: nat)
    ensures (p * (2 * m)) * h == p * (2 * (m * h))
  {
    assert (p * (2 * m)) * h == p * ((2 * m) * h);
    assert (2 * m) * h == 2 * (m * h);
  }

  // Bits below k do not see what is added from k on.
  lemma LowBits(d: nat, h: nat, k: nat, b: nat)
    requires b < k
    ensures BitOf(d + Pow2(k) * h, b) == BitOf(d, b)
  {
    hide Pow2;
    var p, m := Pow2(b), Pow2(k - 1 - b);
    Pow2Add(b, k - b);
    Pow2Step(k - b);
    Regrouped(p, m, h);
    EvenAbove(d, p, m * h);
  }

  // Bits of a little-endian number are bits of its bytes.
  lemma LeBit(data: seq<Byte>, i: nat, b: nat)
    requires i < |data| && b < 8
    ensures BitOf(Le(data), 8 * i + b) == BitOf(At(data, i), b)
  {
    hide LeTo, Pow256, Pow2, At;
    var h := LeSplit(data, i + 1, |data|);
    var w, low, d := Pow256(i), LeTo(data, i), At(data, i);
    LeStep(data, i);
    LeBound(data, i);
    assert Le(data) == w * (d + 256 * h) + low by {
      Distribute(d, 256 * h, w);
      assert (256 * w) * h == w * (256 * h);
    }
    DivModUnique(Le(data), w, d + 256 * h, low);
    Pow256IsPow2(i);
    Pow2Add(8 * i, b);
    DivDiv(Le(data), Pow2(8 * i), Pow2(b));
    assert Pow2(8) == 256 by {
      SmallPow2();
    }
    LowBits(d, h, 8, b);
  }

  // The mask for r of section 2.5 of RFC 7539, and its bytes.
  const R_MASK: nat := 0x0ffffffc0ffffffc0ffffffc0fffffff

  function MaskBytes(): (m: seq<Byte>)
    ensures |m| == 16
  {
    [255, 255, 255, 15, 252, 255, 255, 15, 252, 255, 255, 15, 252, 255, 255, 15]
  }

  lemma MaskValue()
    ensures Le(MaskBytes()) == R_MASK
  {
    hide LeTo;
    LeSixteen(MaskBytes());
  }

  // c is r with the bits cleared that the mask does not have.
  ghost predicate Masked(c: nat, r: nat) {
    && c < Pow2(128)
    && forall j :: 0 <= j < 128 ==> BitOf(c, j) == if BitOf(R_MASK, j) == 1 then BitOf(r, j) else 0
  }

  lemma ClampByte(r: seq<Byte>, i: nat, b: nat)
    requires |r| == 16 && i < 16 && b < 8
    ensures BitOf(At(Clamp(r), i), b) == if BitOf(At(MaskBytes(), i), b) == 1 then BitOf(At(r, i), b) else 0
  {
    var x := r[i];
    assert At(MaskBytes(), i) == if i % 4 == 3 then 15 else if i % 4 == 0 && i > 0 then 252 else 255;
    assert At(Clamp(r), i) == if i % 4 == 3 then x % 16 else if i % 4 == 0 && i > 0 then x - x % 4 else x;
    hide Clamp, MaskBytes;
    MaskedBits(x, b);
  }

  lemma SmallPowers()
    ensures Pow2(0) == 1 && Pow2(1) == 2 && Pow2(2) == 4 && Pow2(3) == 8
    ensures Pow2(4) == 16 && Pow2(5) == 32 && Pow2(6) == 64 && Pow2(7) == 128
  {
  }

  lemma SmallPow2()
    ensures Pow2(2) == 4 && Pow2(4) == 16 && Pow2(8) == 256
  {
  }

  lemma MaskConstants(b: nat)
    requires b < 8
    ensures BitOf(255, b) == 1 && BitOf(15, b) == (if b < 4 then 1 else 0) && BitOf(252, b) == (if b < 2 then 0 else 1)
  {
    SmallPowers();
    hide Pow2;
    if b < 4 {
      assert b == 0 || b == 1 || b == 2 || b == 3;
    } else {
      assert b == 4 || b == 5 || b == 6 || b == 7;
    }
  }

  lemma NoHighBits(x: nat, b: nat)
    requires x < Pow2(b)
    ensures BitOf(x, b) == 0
  {
    hide Pow2;
    DivModUnique(x, Pow2(b), 0, x);
  }

  lemma MaskedBits(x: Byte, b: nat)
    requires b < 8
    ensures BitOf(255, b) == 1 && BitOf(15, b) == (if b < 4 then 1 else 0) && BitOf(252, b) == (if b < 2 then 0 else 1)
    ensures BitOf(x % 16, b) == if b < 4 then BitOf(x, b) else 0
    ensures BitOf(x - x % 4, b) == if b < 2 then 0 else BitOf(x, b)
  {
    hide Pow2, BitOf;
    MaskConstants(b);
    SmallPow2();
    var y: nat := x;
    assert y == y % 16 + 16 * (y / 16) && y - y % 4 == 0 + 4 * (y / 4);
    if b < 4 {
      LowBits(y % 16, y / 16, 4, b);
    } else {
      Pow2Monotone(4, b);
      NoHighBits(y % 16, b);
    }
    if b < 2 {
      LowBits(0, y / 4, 2, b);
      NoHighBits(0, b);
    } else {
      SameHighBits(y, b);
    }
  }

  lemma SameHighBits(y: nat, b: nat)
    requires b >= 2
    ensures y % 4 <= y && BitOf(y - y % 4, b) == BitOf(y, b)
  {
    hide Pow2;
    SmallPow2();
    Pow2Add(2, b - 2);
    DivDiv(y, 4, Pow2(b - 2));
    DivDiv(y - y % 4, 4, Pow2(b - 2));
  }

  lemma ClampBit(r: seq<Byte>, j: nat)
    requires |r| == 16 && j < 128
    ensures BitOf(Le(Clamp(r)), j) == if BitOf(R_MASK, j) == 1 then BitOf(Le(r), j) else 0
  {
    hide Clamp, MaskBytes, LeTo, Pow2, BitOf, At;
    var i, b := j / 8, j % 8;
    MaskValue();
    LeBit(Clamp(r), i, b);
    LeBit(r, i, b);
    LeBit(MaskBytes(), i, b);
    ClampByte(r, i, b);
  }

  // Clamping clears exactly the bits that the mask does not have.
  lemma ClampIsMask(r: seq<Byte>)
    requires |r| == 16
    ensures Masked(Le(Clamp(r)), Le(r))
  {
    hide Clamp, LeTo, Pow2, BitOf, Pow256;
    Pow256IsPow2(16);
    LeBound(Clamp(r), 16);
    forall j | 0 <= j < 128
      ensures BitOf(Le(Clamp(r)), j) == if BitOf(R_MASK, j) == 1 then BitOf(Le(r), j) else 0
    {
      ClampBit(r, j);
    }
  }

  // ---- The authenticator ----

  // The bits of the key that section 2.5 of RFC 7539 wants cleared.
  function Clamp(r: seq<Byte>): (c: seq<Byte>)
    requires |r| == 16
    ensures |c| == 16
  {
    r[3 := r[3] % 16][4 := r[4] - r[4] % 4][7 := r[7] % 16][8 := r[8] - r[8] % 4]
     [11 := r[11] % 16][12 := r[12] - r[12] % 4][15 := r[15] % 16]
  }

  class Poly1305 {
    var r: seq<U64>
    var s: seq<U64>
    const acc: U.U1305
    ghost var blocks: seq<nat>

    ghost predicate Valid()
      reads this, acc
    {
      && |r| == 5 && Small(r, 5) && |s| == 5 && Small(s, 5)
      && U.Reduced(acc.limbs) && Val(acc.limbs) == Accumulated(blocks, Val(r))
    }

    constructor (key: seq<Byte>)
      requires |key| == 32
      ensures Valid() && fresh(acc) && blocks == []
      ensures Val(r) == Le(Clamp(key[..16])) && Masked(Val(r), Le(key[..16])) && Val(s) == Le(key[16..])
    {
      hide Clamp, Masked, LeTo;
      ClampIsMask(key[..16]);
      FromLeBytesValue(Clamp(key[..16]));
      FromLeBytesValue(key[16..]);
      U.ZeroValue(5);
      r := FromLeBytes(Clamp(key[..16]));
      s := FromLeBytes(key[16..]);
      acc := new U.U1305([0, 0, 0, 0, 0]);
      blocks := [];
    }

    method AddBlock(chunk: seq<Byte>, pad: bool)
      requires Valid() && 0 < |chunk| <= 16
      modifies this`blocks, acc
      ensures Valid() && blocks == old(blocks) + [BlockValue(chunk, pad)]
    {
      hide ValTo, LeTo, Pow2;
      var n := BlockLimbs(chunk, pad);
      ghost var h := Val(acc.limbs);
      acc.AddModN(n);
      var x := acc.MulModN(r);
      acc.limbs := x;
      blocks := blocks + [BlockValue(chunk, pad)];
      assert blocks[..|blocks| - 1] == old(blocks);
      ReduceOnce(h + Val(n), Val(r));
    }

    method Update(data: seq<Byte>, pad: bool)
      requires Valid()
      modifies this`blocks, acc
      ensures Valid() && blocks == old(blocks) + Blocks(data, pad)
    {
      hide ValTo, LeTo, Accumulated, BlockValue;
      var i := 0;
      assert data[0..] == data;
      while i < |data|
        invariant 0 <= i <= |data| && Valid()
        invariant blocks + Blocks(data[i..], pad) == old(blocks) + Blocks(data, pad)
      {
        var j := Min(|data|, i + 16);
        NextBlock(data, i, pad);
        AddBlock(data[i..j], pad);
        i := j;
      }
    }

    // The tag: the accumulator plus s, modulo 2^128.
    method Finish() returns (tag: seq<Byte>)
      requires Valid()
      modifies acc
      ensures |tag| == 16
      ensures Le(tag) == (Polynomial(blocks, Val(r)) % P + Val(s)) % Pow256(16)
    {
      hide ValTo, LeTo, Polynomial, Accumulated, Pow256;
      AccumulatedIsPolynomial(blocks, Val(r));
      acc.Add(s);
      tag := ToLeBytes(acc.limbs);
    }
  }

  lemma ReduceOnce(x: nat, r: nat)
    ensures ((x % P) * r) % P == (x * r) % P
  {
    assert x * r == (x % P) * r + P * ((x / P) * r) by {
      assert x == x % P + P * (x / P);
      Distribute(x % P, P * (x / P), r);
      assert (P * (x / P)) * r == P * ((x / P) * r);
    }
    U.ModShift(x * r, (x % P) * r, (x / P) * r);
  }

  lemma NextBlock(data: seq<Byte>, i: nat, pad: bool)
    requires i < |data|
    ensures var j := Min(|data|, i + 16);
            Blocks(data[i..], pad) == [BlockValue(data[i..j], pad)] + Blocks(data[j..], pad)
  {
    var j := Min(|data|, i + 16);
    if |data[i..]| <= 16 {
      assert data[i..j] == data[i..] && data[j..] == [];
    } else {
      assert data[i..][..16] == data[i..j] && data[i..][16..] == data[j..];
    }
  }

  // ---- Any sequence of updates ----

  datatype Part = Part(data: seq<Byte>, pad: bool)

  function AllBlocks(parts: seq<Part>): seq<nat> {
    if parts == [] then [] else AllBlocks(parts[..|parts| - 1]) + Blocks(parts[|parts| - 1].data, parts[|parts| - 1].pad)
  }

  method Authenticate(key: seq<Byte>, parts: seq<Part>) returns (tag: seq<Byte>)
    requires |key| == 32
    ensures |tag| == 16 && Masked(Le(Clamp(key[..16])), Le(key[..16]))
    ensures Le(tag) == (Polynomial(AllBlocks(parts), Le(Clamp(key[..16]))) % P + Le(key[16..])) % Pow256(16)
  {
    hide LeTo, Polynomial, Pow256, Clamp, ValTo, Accumulated, Masked;
    var mac := new Poly1305(key);
    for i := 0 to |parts|
      invariant mac.Valid() && fresh(mac) && fresh(mac.acc) && mac.blocks == AllBlocks(parts[..i])
      invariant Val(mac.r) == Le(Clamp(key[..16])) && Val(mac.s) == Le(key[16..])
    {
      assert parts[..i + 1][..i] == parts[..i];
      mac.Update(parts[i].data, parts[i].pad);
    }
    assert parts[..|parts|] == parts;
    tag := mac.Finish();
  }
}
