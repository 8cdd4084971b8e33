/** Packed septets as one number: what the encoding loop adds to the value of the buffer. */
module PackingValue {
  import opened Bits
  import opened SevenBit

  /** The octets as a little-endian number in base 256. */
  function Value256(b: seq<octet>): nat
  {
    if b == [] then 0 else b[0] + Pow2(8) * Value256(b[1..])
  }

  /** The septets as a little-endian number in base 128. */
  function Value128(cs: seq<octet>): nat
  {
    if cs == [] then 0 else cs[0] + Pow2(7) * Value128(cs[1..])
  }

  lemma {:induction false} Value256Bit(b: seq<octet>, p: nat)
    ensures Bit(Value256(b), p) == Stream(b, p)
    decreases |b|
  {
    if b == [] {
      NoBits(p);
    } else {
      Pow2Values();
      JoinBit(b[0], Value256(b[1..]), 8, p);
      if p >= 8 {
        Value256Bit(b[1..], p - 8);
        assert (p - 8) / 8 == p / 8 - 1 && (p - 8) % 8 == p % 8;
      }
    }
  }

  lemma {:induction false} Value128Bit(cs: seq<octet>, q: nat)
    requires AreSeptets(cs)
    ensures Bit(Value128(cs), q) == SeptetStream(cs, q)
    decreases |cs|
  {
    if cs == [] {
      NoBits(q);
    } else {
      Pow2Values();
      assert IsSeptet(cs[0]);
      JoinBit(cs[0], Value128(cs[1..]), 7, q);
      if q >= 7 {
        Value128Bit(cs[1..], q - 7);
        assert (q - 7) / 7 == q / 7 - 1 && (q - 7) % 7 == q % 7;
      }
    }
  }

  lemma {:induction false} BoundOfBits(x: nat, n: nat)
    requires forall i :: i >= n ==> !Bit(x, i)
    ensures x < Pow2(n)
    decreases n, x
  {
    if x > 0 {
      if n == 0 { assert !Bit(x, 0); }
      forall i | i >= n - 1 && i >= 0 ensures !Bit(x / 2, i) { assert !Bit(x, i + 1); }
      BoundOfBits(x / 2, if n > 0 then n - 1 else 0);
    }
  }

  lemma {:induction false} SameNumber(a: nat, b: nat)
    requires forall i :: i >= 0 ==> Bit(a, i) == Bit(b, i)
    ensures a == b
    decreases a + b
  {
    if a + b > 0 {
      assert Bit(a, 0) == Bit(b, 0);
      forall i | i >= 0 ensures Bit(a / 2, i) == Bit(b / 2, i) { assert Bit(a, i + 1) == Bit(b, i + 1); }
      SameNumber(a / 2, b / 2);
    }
  }

  /** Numbers without common bits add up bit by bit. */
  lemma Joined(x: nat, lo: nat, hi: nat, n: nat)
    requires forall p :: p >= n ==> !Bit(lo, p)
    requires forall p :: p >= 0 ==> Bit(x, p) == (Bit(lo, p) || Bit(hi, p - n))
    ensures x == lo + Pow2(n) * hi
  {
    BoundOfBits(lo, n);
    forall p | p >= 0 ensures Bit(x, p) == Bit(lo + Pow2(n) * hi, p) { JoinBit(lo, hi, n, p); }
    SameNumber(x, lo + Pow2(n) * hi);
  }

  /** Septets added to a buffer at bit 7o add their value at that place. */
  lemma AddedValue(r: seq<octet>, b: seq<octet>, o: nat, cs: seq<octet>)
    requires AreSeptets(cs) && forall p :: p >= 7 * o ==> !Stream(b, p)
    requires forall p :: p >= 0 ==> Stream(r, p) == (Stream(b, p) || SeptetStream(cs, p - 7 * o))
    ensures Value256(r) == Value256(b) + Pow2(7 * o) * Value128(cs)
  {
    forall p | p >= 7 * o ensures !Bit(Value256(b), p) { Value256Bit(b, p); }
    forall p | p >= 0 ensures Bit(Value256(r), p) == (Bit(Value256(b), p) || Bit(Value128(cs), p - 7 * o)) {
      Value256Bit(r, p);
      Value256Bit(b, p);
      if p >= 7 * o { Value128Bit(cs, p - 7 * o); }
    }
    Joined(Value256(r), Value256(b), Value128(cs), 7 * o);
  }

  lemma PackStream(b: seq<octet>, o: nat, cs: seq<octet>, p: nat)
    requires Room(|b|, 0, o, |cs|) && AreSeptets(cs)
    ensures Stream(Pack(b, 0, o, cs), p) == (Stream(b, p) || SeptetStream(cs, p - 7 * o))
  {
    PackBits(b, 0, o, cs, p - 7 * o);
  }

  /** Packing at septet o of a buffer that is zero from there on adds the septets' value times 128^o. */
  lemma PackValue(b: seq<octet>, o: nat, cs: seq<octet>)
    requires Room(|b|, 0, o, |cs|) && AreSeptets(cs)
    requires forall p :: p >= 7 * o ==> !Stream(b, p)
    ensures Value256(Pack(b, 0, o, cs)) == Value256(b) + Pow2(7 * o) * Value128(cs)
  {
    var r := Pack(b, 0, o, cs);
    forall p | p >= 0 ensures Stream(r, p) == (Stream(b, p) || SeptetStream(cs, p - 7 * o)) {
      PackStream(b, o, cs, p);
    }
    AddedValue(r, b, o, cs);
  }
}
