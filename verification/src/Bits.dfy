/**
 Octets, their bits, and buffers as streams of bits, least significant bit of the first octet first.
 Shifts and the bitwise or of the C code are written out as arithmetic on natural numbers.
 */
module Bits {

  type octet = x: int | 0 <= x < 256

  function Pow2(n: nat): (r: nat)
    ensures r > 0
  {
    if n == 0 then 1 else 2 * Pow2(n - 1)
  }

  predicate Bit(x: nat, i: int)
    decreases i
  {
    i >= 0 && if i == 0 then x % 2 == 1 else Bit(x / 2, i - 1)
  }

  /** x >> k. */
  function Shr(x: nat, k: nat): (r: nat)
    ensures r <= x
    decreases k
  {
    if k == 0 then x else Shr(x / 2, k - 1)
  }

  /** (x << k) & 0xff. */
  function Shl(x: octet, k: nat): octet
    decreases k
  {
    if k == 0 then x else Shl(2 * x % 256, k - 1)
  }

  /** a | b. */
  function Or(a: nat, b: nat): (r: nat)
    ensures r >= a && r >= b
    decreases a + b
  {
    if a == 0 && b == 0 then 0
    else 2 * Or(a / 2, b / 2) + if a % 2 == 1 || b % 2 == 1 then 1 else 0
  }

  lemma Pow2Values()
    ensures Pow2(1) == 2 && Pow2(3) == 8 && Pow2(4) == 16 && Pow2(7) == 128 && Pow2(8) == 256
  {
    assert Pow2(2) == 4 && Pow2(3) == 8 && Pow2(4) == 16 && Pow2(5) == 32 && Pow2(6) == 64;
  }

  // ---------------------------------------------------------------- bits of the operations

  lemma {:induction false} ShrBit(x: nat, k: nat, i: nat)
    ensures Bit(Shr(x, k), i) == Bit(x, i + k)
    decreases k
  {
    if k > 0 { ShrBit(x / 2, k - 1, i); }
  }

  lemma {:induction false} OrBit(a: nat, b: nat, i: int)
    ensures Bit(Or(a, b), i) == (Bit(a, i) || Bit(b, i))
    decreases i
  {
    if i == 0 {
    } else if i > 0 {
      assert Or(a, b) / 2 == Or(a / 2, b / 2);
      OrBit(a / 2, b / 2, i - 1);
    }
  }

  lemma {:induction false} NoBits(i: int)
    ensures !Bit(0, i)
    decreases i
  {
    if i > 0 { NoBits(i - 1); }
  }

  /** The bits of two numbers put side by side. */
  lemma {:induction false} JoinBit(lo: nat, hi: nat, n: nat, i: int)
    requires lo < Pow2(n)
    ensures Bit(lo + Pow2(n) * hi, i) == if i < n then Bit(lo, i) else Bit(hi, i - n)
    decreases n
  {
    if n > 0 {
      var y := Pow2(n - 1) * hi;
      assert Pow2(n) * hi == 2 * y;
      assert (lo + 2 * y) / 2 == lo / 2 + y && (lo + 2 * y) % 2 == lo % 2;
      JoinBit(lo / 2, hi, n - 1, i - 1);
    }
  }

  /** The low seven, and the low eight, bits. */
  lemma LowBits(x: nat, i: int)
    ensures Bit(x % 128, i) == (i < 7 && Bit(x, i))
    ensures Bit(x % 256, i) == (i < 8 && Bit(x, i))
  {
    Pow2Values();
    JoinBit(x % 128, x / 128, 7, i);
    JoinBit(x % 256, x / 256, 8, i);
    if i >= 7 { BoundBit(x % 128, 7, i); }
    if i >= 8 { BoundBit(x % 256, 8, i); }
  }

  lemma {:induction false} BoundBit(x: nat, n: nat, i: int)
    requires x < Pow2(n) && i >= n
    ensures !Bit(x, i)
    decreases n
  {
    if n == 0 { NoBits(i); } else { BoundBit(x / 2, n - 1, i - 1); }
  }

  lemma {:induction false} ShlBit(x: octet, k: nat, i: nat)
    requires i < 8
    ensures Bit(Shl(x, k), i) == Bit(x, i - k)
    decreases k
  {
    if k > 0 {
      ShlBit(2 * x % 256, k - 1, i);
      LowBits(2 * x, i - k + 1);
      assert 2 * x / 2 == x;
    }
  }

  lemma {:induction false} SameBits(a: nat, b: nat, n: nat)
    requires a < Pow2(n) && b < Pow2(n)
    requires forall i :: 0 <= i < n ==> Bit(a, i) == Bit(b, i)
    ensures a == b
    decreases n
  {
    if n > 0 {
      assert Bit(a, 0) == Bit(b, 0);
      forall i | 0 <= i < n - 1 ensures Bit(a / 2, i) == Bit(b / 2, i) {
        assert Bit(a, i + 1) == Bit(b, i + 1);
      }
      SameBits(a / 2, b / 2, n - 1);
    }
  }

  lemma {:induction false} OrBound(a: nat, b: nat, n: nat)
    requires a < Pow2(n) && b < Pow2(n)
    ensures Or(a, b) < Pow2(n)
    decreases n
  {
    if n > 0 { OrBound(a / 2, b / 2, n - 1); }
  }

  /** Or of octets. */
  function OrOctet(a: octet, b: octet): octet
  {
    Pow2Values();
    OrBound(a, b, 8);
    Or(a, b)
  }

  lemma SameOctet(a: octet, b: octet)
    requires forall i :: 0 <= i < 8 ==> Bit(a, i) == Bit(b, i)
    ensures a == b
  {
    Pow2Values();
    SameBits(a, b, 8);
  }

  // ---------------------------------------------------------------- streams

  /** Bit p of a buffer; there are no bits outside it. */
  predicate Stream(buf: seq<octet>, p: int)
  {
    0 <= p < 8 * |buf| && Bit(buf[p / 8], p % 8)
  }

  /** Bit q of a run of septets, seven bits each. */
  predicate SeptetStream(cs: seq<octet>, q: int)
  {
    0 <= q < 7 * |cs| && Bit(cs[q / 7], q % 7)
  }

  /** Buffers of one length with the same bits are the same. */
  lemma SameStream(a: seq<octet>, b: seq<octet>)
    requires |a| == |b| && forall p :: Stream(a, p) == Stream(b, p)
    ensures a == b
  {
    forall j | 0 <= j < |a| ensures a[j] == b[j] {
      forall i | 0 <= i < 8 ensures Bit(a[j], i) == Bit(b[j], i) {
        assert Stream(a, 8 * j + i) == Stream(b, 8 * j + i);
        assert (8 * j + i) / 8 == j && (8 * j + i) % 8 == i;
      }
      SameOctet(a[j], b[j]);
    }
  }

  predicate IsSeptet(c: octet) { c < 128 }

  predicate AreSeptets(cs: seq<octet>)
  {
    forall i :: 0 <= i < |cs| ==> IsSeptet(cs[i])
  }

  lemma SeptetTop(c: octet, i: int)
    requires IsSeptet(c) && i >= 7
    ensures !Bit(c, i)
  {
    Pow2Values();
    BoundBit(c, 7, i);
  }
}
