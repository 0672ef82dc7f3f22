/** Numbers as strings of bits, in both bit orders. */
module BitStrings {
  import opened Prelude

  lemma DivAtLeast(a: nat, q: nat, p: nat)
    requires p > 0 && q * p <= a
    ensures q <= a / p
  {
    if a / p < q {
      Scale(a / p + 1, q, p);
      Distribute(a / p, 1, p);
    }
  }

  lemma DivBelow(a: nat, q: nat, p: nat)
    requires p > 0 && a < q * p
    ensures a / p < q
  {
    if q <= a / p {
      Scale(q, a / p, p);
    }
  }

  // The low len bits of code, most significant first.
  function CodeBits(code: nat, len: nat): (v: seq<Bit>)
    ensures |v| == len
  {
    if len == 0 then [] else CodeBits(code / 2, len - 1) + [code % 2]
  }

  lemma {:induction false} CodeBitsAt(code: nat, len: nat, i: nat)
    requires i < len
    ensures CodeBits(code, len)[i] == (code / Pow2(len - 1 - i)) % 2
  {
    if i < len - 1 {
      CodeBitsAt(code / 2, len - 1, i);
      DivTwice(code, Pow2(len - 2 - i));
    }
  }

  lemma DivTwice(a: nat, p: nat)
    requires p > 0
    ensures (a / 2) / p == a / (2 * p)
  {
    var q, r := a / (2 * p), a % (2 * p);
    assert a == q * (2 * p) + r;
    assert a / 2 == q * p + r / 2;
    assert r / 2 < p;
    DivModUnique(a / 2, p, q, r / 2);
  }

  // The first bits of a code are the code shifted down.
  lemma {:induction false} CodeBitsPrefix(code: nat, len: nat, k: nat)
    requires k <= len
    ensures CodeBits(code, len)[..k] == CodeBits(code / Pow2(len - k), k)
  {
    if k < len {
      CodeBitsPrefix(code / 2, len - 1, k);
      DivTwice(code, Pow2(len - 1 - k));
      assert CodeBits(code, len)[..k] == CodeBits(code / 2, len - 1)[..k];
    } else {
      assert CodeBits(code, len)[..k] == CodeBits(code, len);
    }
  }

  lemma {:induction false} CodeBitsInjective(a: nat, b: nat, len: nat)
    requires a < Pow2(len) && b < Pow2(len)
    requires CodeBits(a, len) == CodeBits(b, len)
    ensures a == b
  {
    if len > 0 {
      var x, y := CodeBits(a, len), CodeBits(b, len);
      assert x[len - 1] == y[len - 1];
      assert x[..len - 1] == CodeBits(a / 2, len - 1) && y[..len - 1] == CodeBits(b / 2, len - 1);
      CodeBitsInjective(a / 2, b / 2, len - 1);
    }
  }

  // The low len bits of value, least significant first.
  function LsbBits(value: nat, len: nat): (v: seq<Bit>)
    ensures |v| == len
  {
    if len == 0 then [] else [value % 2] + LsbBits(value / 2, len - 1)
  }

  lemma LsbBitsFirst(value: nat, len: nat)
    requires len > 0
    ensures LsbBits(value, len) == [value % 2] + LsbBits(value / 2, len - 1)
    ensures LsbBits(value, 0) == []
  {
  }

  lemma {:induction false} LsbBitsAt(value: nat, len: nat, i: nat)
    requires i < len
    ensures LsbBits(value, len)[i] == BitOf(value, i)
  {
    if i > 0 {
      LsbBitsAt(value / 2, len - 1, i - 1);
      DivTwice(value, Pow2(i - 1));
    }
  }

  function Zeros(n: nat): (z: seq<Bit>)
    ensures |z| == n && forall i :: 0 <= i < n ==> z[i] == 0
  {
    seq(n, _ => 0)
  }

  // The number with the given bits, least significant first.
  function FromLsb(v: seq<Bit>): (n: nat) {
    if v == [] then 0 else v[0] + 2 * FromLsb(v[1..])
  }

  // Bit i of the number is bit i of the string, and there are no others.
  lemma {:induction false} FromLsbAt(v: seq<Bit>, i: nat)
    requires i < |v|
    ensures BitOf(FromLsb(v), i) == v[i] && FromLsb(v) < Pow2(|v|)
  {
    var n, m := FromLsb(v), FromLsb(v[1..]);
    assert n / 2 == m && n % 2 == v[0];
    if |v| == 1 {
      assert v[1..] == [];
    } else {
      FromLsbAt(v[1..], if i > 0 then i - 1 else 0);
      if i > 0 {
        DivTwice(n, Pow2(i - 1));
      }
    }
  }

  lemma FromLsbEmpty()
    ensures FromLsb([]) == 0
  {
  }

  // Setting the bit above a value appends it to the value's bits.
  lemma {:induction false} LsbBitsAppend(x: nat, b: Bit, k: nat)
    requires x < Pow2(k)
    ensures LsbBits(x + b * Pow2(k), k + 1) == LsbBits(x, k) + [b]
    ensures x + b * Pow2(k) < Pow2(k + 1)
  {
    hide LsbBits;
    if k == 0 {
      LsbBitsFirst(b, 1);
    } else {
      LsbBitsAppend(x / 2, b, k - 1);
      var y := x / 2 + b * Pow2(k - 1);
      assert x + b * Pow2(k) == 2 * y + x % 2 by { DoublePow2(b, k); }
      LsbBitsFirst(x + b * Pow2(k), k + 1);
      LsbBitsFirst(x, k);
      assert (2 * y + x % 2) / 2 == y && (2 * y + x % 2) % 2 == x % 2;
    }
  }

  lemma {:induction false} FromLsbAppend(v: seq<Bit>, b: Bit)
    ensures FromLsb(v + [b]) == FromLsb(v) + b * Pow2(|v|)
    ensures FromLsb(v) < Pow2(|v|)
  {
    if v == [] {
      assert (v + [b])[1..] == [];
    } else {
      assert (v + [b])[1..] == v[1..] + [b];
      FromLsbAppend(v[1..], b);
      DoublePow2(b, |v|);
    }
  }

  lemma {:induction false} LsbBitsSmall(x: nat, k: nat, z: nat)
    requires x < Pow2(k)
    ensures LsbBits(x, k + z) == LsbBits(x, k) + Zeros(z)
  {
    if k == 0 {
      LsbBitsZero(z);
    } else {
      LsbBitsSmall(x / 2, k - 1, z);
    }
  }

  lemma {:induction false} LsbBitsZero(z: nat)
    ensures LsbBits(0, z) == Zeros(z)
  {
    if z > 0 {
      LsbBitsZero(z - 1);
    }
  }

  lemma CodeBitsDouble(v: nat, b: Bit, len: nat)
    ensures CodeBits(2 * v + b, len + 1) == CodeBits(v, len) + [b]
  {
    assert (2 * v + b) / 2 == v && (2 * v + b) % 2 == b;
  }

  // Shifting left appends zeros on the right.
  lemma {:induction false} CodeBitsShift(y: nat, k: nat, z: nat)
    ensures CodeBits(y * Pow2(z), k + z) == CodeBits(y, k) + Zeros(z)
  {
    hide CodeBits, Zeros;
    if z == 0 {
      assert y * Pow2(0) == y && CodeBits(y, k) + Zeros(0) == CodeBits(y, k);
    } else {
      var v := y * Pow2(z - 1);
      CodeBitsShift(y, k, z - 1);
      DoublePow2(y, z);
      assert y * Pow2(z) == (2 * y) * Pow2(z - 1) == 2 * v + 0;
      CodeBitsDouble(v, 0, k + z - 1);
      assert Zeros(z) == Zeros(z - 1) + [0];
    }
  }

  // Bits written most significant first, with the unused rest zero.
  lemma ShiftedOut(x: nat, k: nat, n: nat)
    requires k <= n && x < Pow2(n)
    requires forall i :: k <= i < n ==> CodeBits(x, n)[i] == 0
    ensures x == (x / Pow2(n - k)) * Pow2(n - k)
    ensures CodeBits(x / Pow2(n - k), k) == CodeBits(x, n)[..k]
  {
    hide CodeBits, Pow2;
    var p := Pow2(n - k);
    var y := x / p;
    CodeBitsPrefix(x, n, k);
    CodeBitsShift(y, k, n - k);
    assert CodeBits(x, n) == CodeBits(x, n)[..k] + Zeros(n - k);
    assert x == y * p + x % p;
    CodeBitsInjective(x, y * p, n);
  }

  lemma ShiftBound(x: nat, y: nat, k: nat, n: nat)
    requires k <= n && x < Pow2(n) && y == x / Pow2(n - k)
    ensures y < Pow2(k)
  {
    Pow2Add(k, n - k);
    DivBelow(x, Pow2(k), Pow2(n - k));
  }

  // Setting the next unused bit of x.
  lemma SetNextBit(x: nat, k: nat, n: nat, b: Bit)
    requires k < n && x < Pow2(n)
    requires forall i :: k <= i < n ==> CodeBits(x, n)[i] == 0
    ensures CodeBits(x + b * Pow2(n - 1 - k), n) == CodeBits(x, n)[..k] + [b] + Zeros(n - 1 - k)
    ensures x + b * Pow2(n - 1 - k) < Pow2(n)
  {
    hide CodeBits;
    ShiftedOut(x, k, n);
    var p := Pow2(n - 1 - k);
    var y := x / Pow2(n - k);
    var v := 2 * y + b;
    assert x + b * p == v * p by {
      DoublePow2(y, n - k);
      Distribute(2 * y, b, p);
    }
    CodeBitsShift(v, k + 1, n - 1 - k);
    CodeBitsDouble(y, b, k);
    ShiftBound(x, y, k, n);
    Scale(v + 1, Pow2(k + 1), p);
    Distribute(v, 1, p);
    Pow2Add(k + 1, n - 1 - k);
  }

  // u8::reverse_bits, for numbers of n bits.
  function ReverseBits(x: nat, n: nat): nat {
    if n == 0 then 0 else (x % 2) * Pow2(n - 1) + ReverseBits(x / 2, n - 1)
  }

  lemma {:induction false} CodeBitsFirst(b: Bit, y: nat, n: nat)
    requires y < Pow2(n)
    ensures CodeBits(b * Pow2(n) + y, n + 1) == [b] + CodeBits(y, n)
  {
    if n > 0 {
      assert b * Pow2(n) == 2 * (b * Pow2(n - 1)) by { DoublePow2(b, n); }
      CodeBitsFirst(b, y / 2, n - 1);
    } else {
      assert CodeBits(b, 1) == CodeBits(b / 2, 0) + [b];
    }
  }

  lemma {:induction false} ReverseBitsReverses(x: nat, n: nat)
    ensures ReverseBits(x, n) < Pow2(n)
    ensures CodeBits(ReverseBits(x, n), n) == LsbBits(x, n)
  {
    if n > 0 {
      var y := ReverseBits(x / 2, n - 1);
      ReverseStep(x, n);
      ReverseBitsReverses(x / 2, n - 1);
      hide CodeBits, LsbBits, Pow2, ReverseBits;
      CodeBitsFirst(x % 2, y, n - 1);
      Scale(x % 2, 1, Pow2(n - 1));
    }
  }

  lemma ReverseStep(x: nat, n: nat)
    requires n > 0
    ensures ReverseBits(x, n) == (x % 2) * Pow2(n - 1) + ReverseBits(x / 2, n - 1)
    ensures LsbBits(x, n) == [x % 2] + LsbBits(x / 2, n - 1)
    ensures Pow2(n) == 2 * Pow2(n - 1)
  {
  }
}
