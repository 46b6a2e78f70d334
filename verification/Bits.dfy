/** Single bits of an octet, most significant first, as `x & (0x80 >> k)` and `x |= 0x80 >> k` use them. */
module Bits {
  import opened Bytes

  /** Bit `k` of the binary representation of `x`, least significant first. */
  predicate BinaryDigit(x: nat, k: nat)
    decreases k
  {
    if k == 0 then x % 2 == 1 else BinaryDigit(x / 2, k - 1)
  }

  /** `x` with bit `k` set. */
  function WithDigit(x: nat, k: nat): (r: nat)
    decreases k
  {
    if k == 0 then x - x % 2 + 1 else x % 2 + 2 * WithDigit(x / 2, k - 1)
  }

  function Pow2(n: nat): (r: nat) {
    if n == 0 then 1 else 2 * Pow2(n - 1)
  }

  lemma {:induction false} WithDigitSets(x: nat, k: nat, j: nat)
    ensures BinaryDigit(WithDigit(x, k), j) <==> j == k || BinaryDigit(x, j)
    decreases k
  {
    if k > 0 && j > 0 {
      assert WithDigit(x, k) / 2 == WithDigit(x / 2, k - 1);
      WithDigitSets(x / 2, k - 1, j - 1);
    }
  }

  lemma {:induction false} WithDigitBound(x: nat, k: nat, n: nat)
    requires x < Pow2(n) && k < n
    ensures WithDigit(x, k) < Pow2(n)
    decreases k
  {
    var half := x / 2;
    assert x == 2 * half + x % 2 && Pow2(n) == 2 * Pow2(n - 1);
    if k > 0 {
      WithDigitBound(half, k - 1, n - 1);
    }
  }

  lemma {:induction false} DigitsDetermine(x: nat, y: nat, n: nat)
    requires x < Pow2(n) && y < Pow2(n) && forall k :: 0 <= k < n ==> (BinaryDigit(x, k) <==> BinaryDigit(y, k))
    ensures x == y
  {
    if n > 0 {
      assert BinaryDigit(x, 0) <==> BinaryDigit(y, 0);
      forall k | 0 <= k < n - 1 ensures BinaryDigit(x / 2, k) <==> BinaryDigit(y / 2, k) {
        assert BinaryDigit(x, k + 1) <==> BinaryDigit(y, k + 1);
      }
      DigitsDetermine(x / 2, y / 2, n - 1);
    }
  }

  lemma {:induction false} ZeroDigits(k: nat)
    ensures !BinaryDigit(0, k)
  {
    if k > 0 {
      ZeroDigits(k - 1);
    }
  }

  lemma OctetPow()
    ensures Pow2(8) == 256
  {
    assert Pow2(4) == 16;
  }

  predicate HasBit(x: byte, k: nat)
    requires k < 8
  {
    BinaryDigit(x, 7 - k)
  }

  function SetBit(x: byte, k: nat): (r: byte)
    requires k < 8
    ensures forall j :: 0 <= j < 8 ==> (HasBit(r, j) <==> j == k || HasBit(x, j))
  {
    SetBitSets(x, k);
    WithDigit(x, 7 - k)
  }

  lemma SetBitSets(x: byte, k: nat)
    requires k < 8
    ensures WithDigit(x, 7 - k) < 256
    ensures forall j :: 0 <= j < 8 ==> (HasBit(WithDigit(x, 7 - k), j) <==> j == k || HasBit(x, j))
  {
    hide WithDigit, BinaryDigit, Pow2;
    OctetPow();
    WithDigitBound(x, 7 - k, 8);
    var r: byte := WithDigit(x, 7 - k);
    forall j | 0 <= j < 8 ensures HasBit(r, j) <==> j == k || HasBit(x, j) {
      WithDigitSets(x, 7 - k, 7 - j);
      assert BinaryDigit(r, 7 - j) <==> j == k || BinaryDigit(x, 7 - j);
    }
  }

  function Weight(bit: bool, w: nat): (r: nat) {
    if bit then w else 0
  }

  /** The first bit of an octet has the weight 128, the last the weight one. */
  lemma OctetOfBits(x: byte)
    ensures x == Weight(HasBit(x, 0), 128) + Weight(HasBit(x, 1), 64) + Weight(HasBit(x, 2), 32) +
      Weight(HasBit(x, 3), 16) + Weight(HasBit(x, 4), 8) + Weight(HasBit(x, 5), 4) + Weight(HasBit(x, 6), 2) +
      Weight(HasBit(x, 7), 1)
  {
    hide HasBit, Weight, Upper;
    UpperEnds(x);
    FirstBits(x, 7, 1);
    FirstBits(x, 6, 2);
    FirstBits(x, 5, 4);
    FirstBits(x, 4, 8);
    FirstBits(x, 3, 16);
    FirstBits(x, 2, 32);
    FirstBits(x, 1, 64);
    FirstBits(x, 0, 128);
  }

  /** `x` without its last `n` bits. */
  function Upper(x: nat, n: nat): (r: nat) {
    if n == 0 then x else Upper(x / 2, n - 1)
  }

  lemma UpperEnds(x: byte)
    ensures Upper(x, 8) == 0 && Upper(x, 0) == x
  {
    UpperShrinks(x, 8);
    OctetPow();
  }

  lemma {:induction false} UpperShrinks(x: nat, n: nat)
    requires x < Pow2(n)
    ensures Upper(x, n) == 0
  {
    if n > 0 {
      UpperShrinks(x / 2, n - 1);
    }
  }

  lemma {:induction false} UpperNext(x: nat, n: nat)
    ensures Upper(x, n) == 2 * Upper(x, n + 1) + Weight(BinaryDigit(x, n), 1)
    decreases n
  {
    if n > 0 {
      UpperNext(x / 2, n - 1);
    }
  }

  lemma FirstBits(x: byte, k: nat, w: nat)
    requires k < 8
    ensures w * Upper(x, 7 - k) == 2 * w * Upper(x, 8 - k) + Weight(HasBit(x, k), w)
  {
    hide Upper, BinaryDigit, Weight;
    UpperNext(x, 7 - k);
    Scaled(w, Upper(x, 7 - k), Upper(x, 8 - k), HasBit(x, k));
  }

  lemma Scaled(w: nat, u: nat, v: nat, bit: bool)
    requires u == 2 * v + Weight(bit, 1)
    ensures w * u == 2 * w * v + Weight(bit, w)
  {
    assert w * (2 * v) == 2 * w * v && w * (2 * v + 1) == 2 * w * v + w;
  }

  /** The bits of a row of octets, left to right. */
  predicate RowBit(row: seq<byte>, i: nat)
    requires i < 8 * |row|
  {
    HasBit(row[i / 8], i % 8)
  }

  /** A row is determined by its bits. */
  lemma RowBitsDetermine(a: seq<byte>, b: seq<byte>)
    requires |a| == |b| && forall i :: 0 <= i < 8 * |a| ==> (RowBit(a, i) <==> RowBit(b, i))
    ensures a == b
  {
    forall n | 0 <= n < |a| ensures a[n] == b[n] {
      forall k | 0 <= k < 8 ensures BinaryDigit(a[n], k) <==> BinaryDigit(b[n], k) {
        var i := 8 * n + (7 - k);
        assert i / 8 == n && i % 8 == 7 - k;
        assert RowBit(a, i) <==> RowBit(b, i);
      }
      OctetPow();
      DigitsDetermine(a[n], b[n], 8);
    }
  }
}
