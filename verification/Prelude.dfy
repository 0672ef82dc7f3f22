/** Small definitions shared by the models: results, powers of two and sums. */
module Prelude {

  datatype Option<+T> = None | Some(value: T)

  datatype Result<+T, +E> = Ok(value: T) | Err(error: E)

  type Byte = b: int | 0 <= b < 256
  type Bit = b: int | 0 <= b < 2

  function Min(a: int, b: int): int {
    if a <= b then a else b
  }

  function Pow2(n: nat): (p: nat)
    ensures p >= 1
  {
    if n == 0 then 1 else 2 * Pow2(n - 1)
  }

  lemma Pow2Step(n: nat)
    ensures Pow2(n) == if n == 0 then 1 else 2 * Pow2(n - 1)
  {
  }

  lemma {:induction false} Pow2Add(a: nat, b: nat)
    ensures Pow2(a + b) == Pow2(a) * Pow2(b)
  {
    if b > 0 {
      Pow2Add(a, b - 1);
      assert Pow2(a) * Pow2(b) == 2 * (Pow2(a) * Pow2(b - 1));
    }
  }

  lemma {:induction false} Pow2Monotone(a: nat, b: nat)
    requires a <= b
    ensures Pow2(a) <= Pow2(b)
    ensures a < b ==> 2 * Pow2(a) <= Pow2(b)
  {
    if a < b {
      Pow2Monotone(a, b - 1);
    }
  }

  lemma Pow2Square(k: nat, v: nat)
    requires Pow2(k) == v
    ensures Pow2(2 * k) == v * v
  {
    hide Pow2;
    Pow2Add(k, k);
  }

  lemma Pow2Eight()
    ensures Pow2(8) == 256
  {
    assert Pow2(4) == 16;
  }

  lemma Pow32()
    ensures Pow2(32) == 0x1_0000_0000
  {
    assert Pow2(4) == 16;
    hide Pow2;
    Pow2Square(4, 16);
    Pow2Square(8, 0x100);
    Pow2Square(16, 0x1_0000);
  }

  lemma Pow64()
    ensures Pow2(64) == 0x1_0000_0000_0000_0000
  {
    hide Pow2;
    Pow32();
    Pow2Square(32, 0x1_0000_0000);
  }

  lemma Distribute(a: int, b: int, c: int)
    ensures (a + b) * c == a * c + b * c
    ensures (a - b) * c == a * c - b * c
  {
  }

  lemma Scale(a: int, b: int, c: nat)
    requires a <= b
    ensures a * c <= b * c
  {
    assert (b - a) * c >= 0;
  }

  lemma DivModUnique(n: int, d: nat, q: int, m: int)
    requires d > 0 && n == d * q + m && 0 <= m < d
    ensures n / d == q && n % d == m
  {
    var p := n / d;
    assert d * p + n % d == n;
    if p < q {
      Scale(p + 1, q, d);
      Distribute(p, 1, d);
    } else if p > q {
      Scale(q + 1, p, d);
      Distribute(q, 1, d);
    }
  }

  lemma DivDiv(x: nat, a: nat, b: nat)
    requires a > 0 && b > 0
    ensures a * b > 0 && x / (a * b) == (x / a) / b
  {
    var q, r := x / a, x % a;
    var q2, r2 := q / b, q % b;
    assert x == (a * b) * q2 + (a * r2 + r) by {
      assert q == b * q2 + r2;
      assert a * (b * q2) == (a * b) * q2;
      Distribute(b * q2, r2, a);
    }
    Scale(r2 + 1, b, a);
    Distribute(r2, 1, a);
    Scale(1, b, a);
    DivModUnique(x, a * b, q2, a * r2 + r);
  }

  // Bit j of a number.
  function BitOf(x: nat, j: nat): Bit {
    (x / Pow2(j)) % 2
  }

  lemma DoublePow2(a: int, k: nat)
    requires k > 0
    ensures a * Pow2(k) == (2 * a) * Pow2(k - 1)
  {
    assert a * Pow2(k) == a * (2 * Pow2(k - 1)) == (2 * a) * Pow2(k - 1);
  }

  // Sum of f over the elements of s.
  ghost function SumOver<T>(s: seq<T>, f: T -> int): int {
    if s == [] then 0 else f(s[0]) + SumOver(s[1..], f)
  }

  lemma {:induction false} SumOverConcat<T>(a: seq<T>, b: seq<T>, f: T -> int)
    ensures SumOver(a + b, f) == SumOver(a, f) + SumOver(b, f)
  {
    if a == [] {
      assert a + b == b;
    } else {
      assert (a + b)[1..] == a[1..] + b;
      SumOverConcat(a[1..], b, f);
    }
  }

  // The order of the elements does not matter.
  lemma SumOverFirst<T>(s: seq<T>, f: T -> int)
    requires s != []
    ensures SumOver(s, f) == f(s[0]) + SumOver(s[1..], f)
  {
  }

  lemma {:induction false} SumOverPermutation<T>(a: seq<T>, b: seq<T>, f: T -> int)
    requires multiset(a) == multiset(b)
    ensures SumOver(a, f) == SumOver(b, f)
  {
    if a == [] {
      assert |multiset(b)| == 0;
      assert b == [];
    } else {
      assert a[0] in multiset(b);
      var i :| 0 <= i < |b| && b[i] == a[0];
      var rest := b[..i] + b[i + 1..];
      SumOverFirst(a, f);
      SumOverFirst([b[i]] + b[i + 1..], f);
      hide SumOver;
      assert a == [a[0]] + a[1..];
      assert b == b[..i] + ([b[i]] + b[i + 1..]);
      assert multiset(rest) == multiset(b) - multiset{a[0]};
      assert multiset(a[1..]) == multiset(a) - multiset{a[0]};
      SumOverPermutation(a[1..], rest, f);
      SumOverConcat(b[..i], b[i + 1..], f);
      SumOverConcat(b[..i], [b[i]] + b[i + 1..], f);
      assert ([b[i]] + b[i + 1..])[1..] == b[i + 1..];
    }
  }

  ghost predicate Distinct<T>(s: seq<T>) {
    forall i, j :: 0 <= i < j < |s| ==> s[i] != s[j]
  }

  // A duplicate-free sequence holds each of its elements once.
  lemma {:induction false} DistinctMultiset<T>(s: seq<T>)
    requires Distinct(s)
    ensures multiset(s) == multiset(set x | x in s)
  {
    if s == [] {
      assert (set x | x in s) == {};
    } else {
      var last := s[|s| - 1];
      var init := s[..|s| - 1];
      assert s == init + [last];
      DistinctMultiset(init);
      assert (set x | x in s) == (set x | x in init) + {last};
      assert last !in init;
    }
  }

  lemma DistinctSize<T>(s: seq<T>, all: set<T>)
    requires Distinct(s) && forall x :: x in s <==> x in all
    ensures |s| == |all|
  {
    DistinctMultiset(s);
    assert (set x | x in s) == all;
    assert |multiset(s)| == |multiset(all)|;
  }

  lemma {:induction false} SubsetSize<T>(a: set<T>, b: set<T>)
    requires a <= b
    ensures |a| <= |b|
  {
    if a != {} {
      var x :| x in a;
      SubsetSize(a - {x}, b - {x});
    }
  }
}
