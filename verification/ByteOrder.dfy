/** Integers as byte strings, most or least significant byte first. */
module ByteOrder {
  import opened Prelude

  function BeBytes(x: nat, k: nat): (r: seq<Byte>)
    ensures |r| == k
  {
    if k == 0 then [] else BeBytes(x / 256, k - 1) + [x % 256]
  }

  function LeBytes(x: nat, k: nat): (r: seq<Byte>)
    ensures |r| == k
  {
    if k == 0 then [] else [x % 256] + LeBytes(x / 256, k - 1)
  }

  lemma Pow2Byte(k: nat)
    requires k > 0
    ensures Pow2(8 * k) == 256 * Pow2(8 * (k - 1))
  {
    hide Pow2;
    Pow2Add(8, 8 * (k - 1));
    Pow2Eight();
  }

  // Byte i of either order is digit i in base 256, counted from its own end.
  lemma {:induction false} LeDigits(x: nat, k: nat, i: nat)
    requires i < k
    ensures LeBytes(x, k)[i] == (x / Pow2(8 * i)) % 256
  {
    if i > 0 {
      LeDigits(x / 256, k - 1, i - 1);
      DigitStep(x, i);
    }
  }

  lemma {:induction false} BeDigits(x: nat, k: nat, i: nat)
    requires i < k
    ensures BeBytes(x, k)[k - 1 - i] == (x / Pow2(8 * i)) % 256
  {
    if i > 0 {
      BeDigits(x / 256, k - 1, i - 1);
      DigitStep(x, i);
    }
  }

  lemma DigitStep(x: nat, i: nat)
    requires i > 0
    ensures (x / 256) / Pow2(8 * (i - 1)) == x / Pow2(8 * i)
  {
    Pow2Byte(i);
    DivDiv(x, 256, Pow2(8 * (i - 1)));
  }

  // The upper bytes of a number that needs only k of them are zero.
  lemma {:induction false} LeadingZeros(x: nat, k: nat, extra: nat)
    requires x < Pow2(8 * k)
    ensures BeBytes(x, k + extra) == seq(extra, _ => 0) + BeBytes(x, k)
  {
    if k == 0 {
      ZeroBytes(extra);
    } else {
      Pow2Byte(k);
      LeadingZeros(x / 256, k - 1, extra);
    }
  }

  lemma {:induction false} ZeroBytes(k: nat)
    ensures BeBytes(0, k) == seq(k, _ => 0)
  {
    if k > 0 {
      ZeroBytes(k - 1);
    }
  }

  lemma {:induction false} BytesInjective(x: nat, y: nat, k: nat)
    requires x < Pow2(8 * k) && y < Pow2(8 * k)
    requires BeBytes(x, k) == BeBytes(y, k) || LeBytes(x, k) == LeBytes(y, k)
    ensures x == y
  {
    if k > 0 {
      Pow2Byte(k);
      if BeBytes(x, k) == BeBytes(y, k) {
        assert x % 256 == BeBytes(x, k)[k - 1] == BeBytes(y, k)[k - 1] == y % 256;
        assert BeBytes(x / 256, k - 1) == BeBytes(x, k)[..k - 1] == BeBytes(y, k)[..k - 1] == BeBytes(y / 256, k - 1);
      } else {
        assert x % 256 == LeBytes(x, k)[0] == LeBytes(y, k)[0] == y % 256;
        assert LeBytes(x / 256, k - 1) == LeBytes(x, k)[1..] == LeBytes(y, k)[1..] == LeBytes(y / 256, k - 1);
      }
      BytesInjective(x / 256, y / 256, k - 1);
    }
  }
}
