/**
 chan_vgsm/7bit.c: septets packed behind each other in octets, and text packed as septets behind a user-data
 header (sections 6.1.2.1.1 of 3GPP TS 23.038 and 9.2.3.24 of 3GPP TS 23.040).
 */
module SevenBit {
  import opened Bits
  import opened GsmCharset

  function OctetsToSeptets(octets: nat): (r: nat)
    ensures 7 * (r - 1) < 8 * octets <= 7 * r
  {
    octets * 8 / 7 + if octets * 8 % 7 != 0 then 1 else 0
  }

  function SeptetsToOctets(septets: nat): (r: nat)
    ensures 8 * (r - 1) < 7 * septets <= 8 * r
  {
    septets * 7 / 8 + if septets * 7 % 8 != 0 then 1 else 0
  }

  // ---------------------------------------------------------------- one septet

  /** The octet that holds the bit just past septet k, which is also the last one written for it. */
  function OutPos(k: nat): nat { (k + 1) * 7 / 8 }

  lemma OutPosValue(k: nat)
    ensures 7 * k == 8 * OutPos(k) - k % 8
    ensures OutPos(k) == 0 <==> k == 0
    ensures OutPos(k) <= SeptetsToOctets(k + 1) <= OutPos(k) + 1
    ensures k % 8 < 7 ==> SeptetsToOctets(k + 1) == OutPos(k) + 1
  {
    var s := k % 8;
    var q, r := 7 * (k / 8) + s, 7 - s;
    assert (k + 1) * 7 == 8 * q + r && 0 <= r < 8;
    assert OutPos(k) == q;
    assert (k + 1) * 7 % 8 == r;
  }

  function OrAt(b: seq<octet>, j: nat, x: octet): seq<octet>
    requires j < |b|
  {
    b[j := OrOctet(b[j], x)]
  }

  /** vgsm_write_septet() on the octets as a value; septets are counted from the octet `base`. */
  function PutSeptet(b: seq<octet>, base: nat, k: nat, c: octet): (r: seq<octet>)
    requires base + OutPos(k) < |b|
    ensures |r| == |b|
  {
    var j, s := OutPos(k), k % 8;
    if j > 0 then OrAt(OrAt(b, base + j - 1, Shl(c, 8 - s)), base + j, Shr(c, s)) else OrAt(b, base + j, c)
  }

  lemma OrAtBits(b: seq<octet>, j: nat, x: octet, p: int)
    requires j < |b|
    ensures Stream(OrAt(b, j, x), p) == (Stream(b, p) || (0 <= p - 8 * j < 8 && Bit(x, p - 8 * j)))
  {
    if 8 * j <= p < 8 * j + 8 {
      assert p / 8 == j && p % 8 == p - 8 * j;
      OrBit(b[j], x, p % 8);
    }
  }

  /** The two octets that a septet starting s bits before the second one falls into. */
  lemma SplitBits(c: octet, s: nat, q: int)
    requires s < 8 && IsSeptet(c)
    ensures ((-8 <= q < 0 && Bit(Shl(c, 8 - s), q + 8)) || (0 <= q < 8 && Bit(Shr(c, s), q))) == Bit(c, q + s)
  {
    if -8 <= q < 0 { ShlBit(c, 8 - s, q + 8); }
    if 0 <= q < 8 { ShrBit(c, s, q); }
    if q + s >= 7 { SeptetTop(c, q + s); }
  }

  lemma PutTwoBits(b: seq<octet>, j: nat, s: nat, c: octet, p: int)
    requires 0 < j < |b| && s < 8 && IsSeptet(c)
    ensures Stream(OrAt(OrAt(b, j - 1, Shl(c, 8 - s)), j, Shr(c, s)), p) == (Stream(b, p) || Bit(c, p - 8 * j + s))
  {
    OrAtBits(b, j - 1, Shl(c, 8 - s), p);
    OrAtBits(OrAt(b, j - 1, Shl(c, 8 - s)), j, Shr(c, s), p);
    SplitBits(c, s, p - 8 * j);
  }

  /** Writing septet k sets the bits of c at 7k to 7k + 6 and touches no other bit. */
  lemma PutSeptetBits(b: seq<octet>, base: nat, k: nat, c: octet, p: int)
    requires base + OutPos(k) < |b| && IsSeptet(c)
    ensures Stream(PutSeptet(b, base, k, c), p) == (Stream(b, p) || Bit(c, p - 8 * base - 7 * k))
  {
    hide Shl, Shr, Stream, OrOctet, OrAt;
    OutPosValue(k);
    var j, q := base + OutPos(k), p - 8 * base - 7 * k;
    assert q == p - 8 * j + k % 8;
    if OutPos(k) > 0 {
      PutTwoBits(b, j, k % 8, c, p);
    } else {
      OrAtBits(b, j, c, p);
      if q >= 7 { SeptetTop(c, q); }
    }
  }

  /** The 16-bit window over septet k: ((v & (0x7f << shift)) >> shift), which is (v >> shift) & 0x7f. */
  function GetSeptet(b: seq<octet>, base: nat, k: nat): (c: octet)
    requires base + SeptetsToOctets(k + 1) <= |b|
    ensures IsSeptet(c)
  {
    OutPosValue(k);
    var j, s := OutPos(k), k % 8;
    Window(if j > 0 then b[base + j - 1] else 0, if s < 7 then b[base + j] else 0, 8 - s)
  }

  function Window(low: octet, high: octet, shift: nat): (c: octet)
    ensures IsSeptet(c)
  {
    Shr(low + 256 * high, shift) % 128
  }

  /** Bits shift to shift + 6 of the two octets. */
  lemma WindowBits(low: octet, high: octet, shift: nat, i: nat)
    ensures Bit(Window(low, high, shift), i)
         == (i < 7 && if i + shift < 8 then Bit(low, i + shift) else Bit(high, i + shift - 8))
  {
    var v := low + 256 * high;
    LowBits(Shr(v, shift), i);
    ShrBit(v, shift, i);
    Pow2Values();
    JoinBit(low, high, 8, i + shift);
  }

  /** The same, of the octets around the place s bits before octet j. */
  lemma WindowStream(b: seq<octet>, j: nat, s: nat, low: octet, high: octet, i: nat)
    requires s < 8 && i < 7 && j <= |b|
    requires (s > 0 ==> j > 0 && low == b[j - 1]) && (s < 7 ==> j < |b| && high == b[j])
    ensures Bit(Window(low, high, 8 - s), i) == Stream(b, 8 * j - s + i)
  {
    WindowBits(low, high, 8 - s, i);
    var p := 8 * j - s + i;
    if i < s {
      assert p / 8 == j - 1 && p % 8 == 8 - s + i;
    } else {
      assert p / 8 == j && p % 8 == i - s;
    }
  }

  lemma GetSeptetBits(b: seq<octet>, base: nat, k: nat, i: nat)
    requires base + SeptetsToOctets(k + 1) <= |b| && i < 7
    ensures Bit(GetSeptet(b, base, k), i) == Stream(b, 8 * base + 7 * k + i)
  {
    OutPosValue(k);
    var j, s := base + OutPos(k), k % 8;
    WindowStream(b, j, s, if OutPos(k) > 0 then b[j - 1] else 0, if s < 7 then b[j] else 0, i);
    assert 8 * base + 7 * k + i == 8 * j - s + i;
  }

  // ---------------------------------------------------------------- runs of septets

  lemma OutPosMonotone(k: nat, l: nat)
    requires k <= l
    ensures OutPos(k) <= OutPos(l)
  {
  }

  /** Room for septets o to o + n - 1 counted from `base`, and for the octet touched just past them. */
  predicate Room(octets: nat, base: nat, o: nat, n: nat)
  {
    n > 0 ==> base + OutPos(o + n - 1) < octets
  }

  /** The octets after the first n of the septets cs are written at o, o + 1, ... */
  function PackFirst(b: seq<octet>, base: nat, o: nat, cs: seq<octet>, n: nat): (r: seq<octet>)
    requires n <= |cs| && Room(|b|, base, o, n)
    ensures |r| == |b|
  {
    if n == 0 then b
    else
      OutPosMonotone(o + n - if n > 1 then 2 else 1, o + n - 1);
      PutSeptet(PackFirst(b, base, o, cs, n - 1), base, o + n - 1, cs[n - 1])
  }

  lemma PackFirstNext(b: seq<octet>, base: nat, o: nat, cs: seq<octet>, n: nat)
    requires n < |cs| && Room(|b|, base, o, n + 1)
    ensures Room(|b|, base, o, n)
    ensures PackFirst(b, base, o, cs, n + 1) == PutSeptet(PackFirst(b, base, o, cs, n), base, o + n, cs[n])
  {
    OutPosMonotone(o + n - if n > 0 then 1 else 0, o + n);
  }

  function Pack(b: seq<octet>, base: nat, o: nat, cs: seq<octet>): (r: seq<octet>)
    requires Room(|b|, base, o, |cs|)
    ensures |r| == |b|
  {
    PackFirst(b, base, o, cs, |cs|)
  }

  function Unpack(b: seq<octet>, base: nat, o: nat, n: nat): (r: seq<octet>)
    requires n > 0 ==> base + SeptetsToOctets(o + n) <= |b|
    ensures |r| == n && AreSeptets(r)
  {
    if n == 0 then [] else Unpack(b, base, o, n - 1) + [GetSeptet(b, base, o + n - 1)]
  }

  lemma PackBitsStep(was: bool, b1: seq<octet>, base: nat, o: nat, cs: seq<octet>, n: nat, q: int)
    requires 0 < n <= |cs| && base + OutPos(o + n - 1) < |b1| && AreSeptets(cs)
    requires Stream(b1, 8 * base + 7 * o + q) == (was || (SeptetStream(cs, q) && q < 7 * (n - 1)))
    ensures Stream(PutSeptet(b1, base, o + n - 1, cs[n - 1]), 8 * base + 7 * o + q)
         == (was || (SeptetStream(cs, q) && q < 7 * n))
  {
    var p := 8 * base + 7 * o + q;
    PutSeptetBits(b1, base, o + n - 1, cs[n - 1], p);
    assert p - 8 * base - 7 * (o + n - 1) == q - 7 * (n - 1);
    if q - 7 * (n - 1) >= 7 { SeptetTop(cs[n - 1], q - 7 * (n - 1)); }
    if 7 * (n - 1) <= q < 7 * n { assert q / 7 == n - 1 && q % 7 == q - 7 * (n - 1); }
  }

  lemma {:induction false} PackFirstBits(b: seq<octet>, base: nat, o: nat, cs: seq<octet>, n: nat, q: int)
    requires n <= |cs| && Room(|b|, base, o, n) && AreSeptets(cs)
    ensures Stream(PackFirst(b, base, o, cs, n), 8 * base + 7 * o + q)
         == (Stream(b, 8 * base + 7 * o + q) || (SeptetStream(cs, q) && q < 7 * n))
    decreases n
  {
    if n > 0 {
      PackFirstNext(b, base, o, cs, n - 1);
      PackFirstBits(b, base, o, cs, n - 1, q);
      PackBitsStep(Stream(b, 8 * base + 7 * o + q), PackFirst(b, base, o, cs, n - 1), base, o, cs, n, q);
    }
  }

  /** Counted from bit 7o after the octet `base`, the stream is the old one with the septets' bits added. */
  lemma PackBits(b: seq<octet>, base: nat, o: nat, cs: seq<octet>, q: int)
    requires Room(|b|, base, o, |cs|) && AreSeptets(cs)
    ensures Stream(Pack(b, base, o, cs), 8 * base + 7 * o + q)
         == (Stream(b, 8 * base + 7 * o + q) || SeptetStream(cs, q))
  {
    PackFirstBits(b, base, o, cs, |cs|, q);
  }

  lemma {:induction false} UnpackAt(b: seq<octet>, base: nat, o: nat, n: nat, i: nat)
    requires base + SeptetsToOctets(o + n) <= |b| && i < n
    ensures base + SeptetsToOctets(o + i + 1) <= |b|
    ensures Unpack(b, base, o, n)[i] == GetSeptet(b, base, o + i)
    decreases n
  {
    if i < n - 1 { UnpackAt(b, base, o, n - 1, i); }
  }

  /** No bit is set where septets o to o + n - 1 go. */
  ghost predicate Clear(b: seq<octet>, base: nat, o: nat, n: nat)
  {
    forall p :: 8 * base + 7 * o <= p < 8 * base + 7 * (o + n) ==> !Stream(b, p)
  }

  /** Unpacking undoes packing at every offset, over any octets whose bits were clear there. */
  lemma UnpackPack(b: seq<octet>, base: nat, o: nat, cs: seq<octet>)
    requires Room(|b|, base, o, |cs|) && AreSeptets(cs) && Clear(b, base, o, |cs|)
    requires cs != [] ==> base + SeptetsToOctets(o + |cs|) <= |b|
    ensures Unpack(Pack(b, base, o, cs), base, o, |cs|) == cs
  {
    var r := Pack(b, base, o, cs);
    forall i | 0 <= i < |cs| ensures Unpack(r, base, o, |cs|)[i] == cs[i] {
      UnpackAt(r, base, o, |cs|, i);
      SeptetBack(b, base, o, cs, i);
    }
  }

  lemma SeptetBack(b: seq<octet>, base: nat, o: nat, cs: seq<octet>, i: nat)
    requires i < |cs| && Room(|b|, base, o, |cs|) && AreSeptets(cs) && Clear(b, base, o, |cs|)
    requires base + SeptetsToOctets(o + i + 1) <= |b|
    ensures GetSeptet(Pack(b, base, o, cs), base, o + i) == cs[i]
  {
    var r := Pack(b, base, o, cs);
    var w := GetSeptet(r, base, o + i);
    forall k | 0 <= k < 8 ensures Bit(w, k) == Bit(cs[i], k) {
      if k < 7 {
        PackBits(b, base, o, cs, 7 * i + k);
        BitRead(r, base, o, cs, i, k);
      } else {
        SeptetTop(w, k);
        SeptetTop(cs[i], k);
      }
    }
    SameOctet(w, cs[i]);
  }

  lemma BitRead(r: seq<octet>, base: nat, o: nat, cs: seq<octet>, i: nat, k: nat)
    requires i < |cs| && k < 7 && base + SeptetsToOctets(o + i + 1) <= |r|
    requires Stream(r, 8 * base + 7 * o + (7 * i + k)) == SeptetStream(cs, 7 * i + k)
    ensures Bit(GetSeptet(r, base, o + i), k) == Bit(cs[i], k)
  {
    GetSeptetBits(r, base, o + i, k);
    assert 8 * base + 7 * (o + i) + k == 8 * base + 7 * o + (7 * i + k);
    assert (7 * i + k) / 7 == i && (7 * i + k) % 7 == k;
  }

  /** The unpacking loop sees no more than the octets that the septets up to o + n need. */
  lemma {:induction false} UnpackPrefix(b: seq<octet>, t: seq<octet>, base: nat, o: nat, n: nat)
    requires base + SeptetsToOctets(o + n) <= |b|
    ensures Unpack(b + t, base, o, n) == Unpack(b, base, o, n)
    decreases n
  {
    if n > 0 {
      UnpackPrefix(b, t, base, o, n - 1);
      var k := o + n - 1;
      OutPosValue(k);
      assert OutPos(k) > 0 ==> (b + t)[base + OutPos(k) - 1] == b[base + OutPos(k) - 1];
      assert k % 8 < 7 ==> (b + t)[base + OutPos(k)] == b[base + OutPos(k)];
    }
  }

  /** Septets counted from `base` are those of the octets from there on. */
  lemma {:induction false} UnpackFrom(b: seq<octet>, base: nat, o: nat, n: nat)
    requires base <= |b| && (n > 0 ==> base + SeptetsToOctets(o + n) <= |b|)
    ensures Unpack(b, base, o, n) == Unpack(b[base..], 0, o, n)
    decreases n
  {
    if n > 0 {
      UnpackFrom(b, base, o, n - 1);
      var k := o + n - 1;
      OutPosValue(k);
      assert OutPos(k) > 0 ==> b[base..][OutPos(k) - 1] == b[base + OutPos(k) - 1];
      assert k % 8 < 7 ==> b[base..][OutPos(k)] == b[base + OutPos(k)];
    }
  }

  /** Octets wholly before or after the septets are left as they were. */
  lemma PackElsewhere(b: seq<octet>, base: nat, o: nat, cs: seq<octet>, j: nat)
    requires Room(|b|, base, o, |cs|) && AreSeptets(cs) && j < |b|
    requires 8 * (j + 1) <= 8 * base + 7 * o || 8 * base + 7 * (o + |cs|) <= 8 * j
    ensures Pack(b, base, o, cs)[j] == b[j]
  {
    var r := Pack(b, base, o, cs);
    forall i | 0 <= i < 8 ensures Bit(r[j], i) == Bit(b[j], i) {
      var p := 8 * j + i;
      PackBits(b, base, o, cs, p - 8 * base - 7 * o);
      assert p / 8 == j && p % 8 == i;
    }
    SameOctet(r[j], b[j]);
  }

  // ---------------------------------------------------------------- text

  /** The septets of a whole text; characters outside the alphabet have none. */
  function TextSeptets(t: seq<Entry>, text: seq<int>): seq<octet>
  {
    if text == [] then [] else Septets(t, text[0]) + TextSeptets(t, text[1..])
  }

  /** Septets written and whether the text fitted. */
  datatype Encoded = Encoded(septets: seq<octet>, ok: bool)

  /** One character of vgsm_wc_to_7bit(), when `n` septets are out; -ENOSPC is ok == false. */
  function EncodeOne(t: seq<Entry>, wc: int, max: int, n: nat): (e: Encoded)
  {
    var cs := Septets(t, wc);
    if cs == [] then Encoded([], true)
    else if n >= max then Encoded([], false)
    else if n + 1 >= max then Encoded([cs[0]], false)
    else Encoded(cs, true)
  }

  /** vgsm_wc_to_7bit() from a point where `n` septets are out. */
  function EncodeFrom(t: seq<Entry>, text: seq<int>, max: int, n: nat): Encoded
  {
    if text == [] then Encoded([], true)
    else
      var one := EncodeOne(t, text[0], max, n);
      if !one.ok then one
      else
        var rest := EncodeFrom(t, text[1..], max, n + |one.septets|);
        Encoded(one.septets + rest.septets, rest.ok)
  }

  /** `part` stands at n in `all`. */
  ghost predicate Holds(all: seq<octet>, n: nat, part: seq<octet>)
  {
    n + |part| <= |all| && forall i :: 0 <= i < |part| ==> all[n + i] == part[i]
  }

  /** After the first `at` characters, the first n of the septets `all` are out. */
  ghost predicate Underway(t: seq<Entry>, text: seq<int>, at: nat, max: int, n: nat, e: Encoded)
  {
    at <= |text| && n <= |e.septets| && EncodeFrom(t, text[at..], max, n) == Encoded(e.septets[n..], e.ok)
  }

  lemma EncodeNext(t: seq<Entry>, text: seq<int>, at: nat, max: int, n: nat, e: Encoded)
    requires at < |text| && Underway(t, text, at, max, n, e)
    ensures var one := EncodeOne(t, text[at], max, n);
      && Holds(e.septets, n, one.septets)
      && (one.ok ==> Underway(t, text, at + 1, max, n + |one.septets|, e))
      && (!one.ok ==> |e.septets| == n + |one.septets| && !e.ok)
  {
    assert text[at..][0] == text[at] && text[at..][1..] == text[at + 1..];
    var one := EncodeOne(t, text[at], max, n);
    var m := n + |one.septets|;
    assert one.septets <= e.septets[n..];
    assert forall i :: 0 <= i < |one.septets| ==> e.septets[n..][i] == e.septets[n + i];
    if one.ok { assert e.septets[n..][|one.septets|..] == e.septets[m..]; }
  }

  /** The last character that has septets has two. */
  predicate EndsEscaped(t: seq<Entry>, text: seq<int>)
  {
    text != [] && if TextSeptets(t, text[1..]) == [] then |Septets(t, text[0])| == 2 else EndsEscaped(t, text[1..])
  }

  lemma EncodeSkips(t: seq<Entry>, text: seq<int>, max: int, n: nat)
    requires text != [] && Septets(t, text[0]) == []
    ensures EncodeFrom(t, text, max, n) == EncodeFrom(t, text[1..], max, n)
    ensures TextSeptets(t, text) == TextSeptets(t, text[1..])
    ensures TextSeptets(t, text) != [] ==> EndsEscaped(t, text) == EndsEscaped(t, text[1..])
  {
  }

  lemma EncodeTakes(t: seq<Entry>, text: seq<int>, max: int, n: nat, cs: seq<octet>, rest: Encoded)
    requires text != [] && cs == Septets(t, text[0]) != []
    requires rest == EncodeFrom(t, text[1..], max, n + |cs|)
    ensures EncodeFrom(t, text, max, n) == (if n >= max then Encoded([], false)
                                            else if n + 1 >= max then Encoded([cs[0]], false)
                                            else Encoded(cs + rest.septets, rest.ok))
    ensures TextSeptets(t, text) == cs + TextSeptets(t, text[1..])
    ensures EndsEscaped(t, text)
         == if TextSeptets(t, text[1..]) == [] then |cs| == 2 else EndsEscaped(t, text[1..])
  {
  }

  /** Whether the septets `all` of a text fit behind n others: exactly `max` only with an escaped character last. */
  predicate Accommodates(all: seq<octet>, escaped: bool, max: int, n: nat)
  {
    all == [] || n + |all| < max || (n + |all| == max && escaped)
  }

  /** When a text fits: exactly `max` septets are accepted only if an escaped character comes last. */
  lemma {:induction false} EncodeExact(t: seq<Entry>, text: seq<int>, max: int, n: nat)
    ensures var all := TextSeptets(t, text); var e := EncodeFrom(t, text, max, n);
      && (e.ok <==> Accommodates(all, EndsEscaped(t, text), max, n))
      && (e.ok ==> e.septets == all)
      && (e.septets == [] || n + |e.septets| <= max)
    decreases |text|
  {
    if text != [] {
      var cs := Septets(t, text[0]);
      EncodeExact(t, text[1..], max, n + |cs|);
      if cs == [] {
        EncodeSkips(t, text, max, n);
      } else {
        EncodeTakes(t, text, max, n, cs, EncodeFrom(t, text[1..], max, n + |cs|));
      }
    }
  }

  /** Decoding reads one character per septet. */
  function DecodeSeptets(t: seq<Entry>, cs: seq<octet>): (r: seq<int>)
    ensures |r| == |cs|
  {
    if cs == [] then [] else [Wide(t, cs[0])] + DecodeSeptets(t, cs[1..])
  }

  predicate AllBasic(t: seq<Entry>, text: seq<int>) { forall i :: 0 <= i < |text| ==> IsBasic(t, text[i]) }

  predicate AllTranslatable(t: seq<Entry>, text: seq<int>)
  {
    forall i :: 0 <= i < |text| ==> IsTranslatable(t, text[i])
  }

  /** A text comes back exactly when it has no escaped character: each of those comes back as two. */
  lemma {:induction false} TextRoundTrip(t: seq<Entry>, text: seq<int>)
    requires IsGsmTable(t) && AllTranslatable(t, text)
    ensures |TextSeptets(t, text)| >= |text|
    ensures |TextSeptets(t, text)| == |text| <==> AllBasic(t, text)
    ensures DecodeSeptets(t, TextSeptets(t, text)) == text <==> AllBasic(t, text)
    decreases |text|
  {
    if text != [] {
      TextRoundTrip(t, text[1..]);
      assert IsTranslatable(t, text[0]);
      assert AllBasic(t, text) <==> IsBasic(t, text[0]) && AllBasic(t, text[1..]);
      if IsBasic(t, text[0]) {
        BasicRoundTrip(t, text[0]);
        var cs := TextSeptets(t, text);
        assert cs[0] == Septets(t, text[0])[0] && cs[1..] == TextSeptets(t, text[1..]);
        assert text == [text[0]] + text[1..];
        assert DecodeSeptets(t, cs) == [text[0]] + DecodeSeptets(t, cs[1..]);
        assert DecodeSeptets(t, cs)[1..] == DecodeSeptets(t, cs[1..]);
      }
    }
  }

  lemma {:induction false} TextSeptetsAreSeptets(t: seq<Entry>, text: seq<int>)
    requires IsGsmTable(t)
    ensures AreSeptets(TextSeptets(t, text))
    decreases |text|
  {
    if text != [] {
      SeptetsInRange(t, text[0]);
      TextSeptetsAreSeptets(t, text[1..]);
    }
  }

  lemma {:induction false} EncodedAreSeptets(t: seq<Entry>, text: seq<int>, max: int, n: nat)
    requires IsGsmTable(t)
    ensures AreSeptets(EncodeFrom(t, text, max, n).septets)
    decreases |text|
  {
    if text != [] {
      SeptetsInRange(t, text[0]);
      EncodedAreSeptets(t, text[1..], max, n + |EncodeOne(t, text[0], max, n).septets|);
    }
  }

  /** A character with two septets is decoded as two characters. */
  lemma EscapedComesBackAsTwo(t: seq<Entry>, wc: int)
    requires |Septets(t, wc)| == 2
    ensures |DecodeSeptets(t, TextSeptets(t, [wc]))| == 2
  {
    assert TextSeptets(t, [wc]) == Septets(t, wc) + TextSeptets(t, []);
  }

  /** The euro sign, for one, does not come back. */
  lemma EuroIsLost()
    ensures |DecodeSeptets(Table(), TextSeptets(Table(), [0x20AC]))| == 2
    ensures DecodeSeptets(Table(), TextSeptets(Table(), [0x20AC])) != [0x20AC]
  {
    EuroIsEscaped();
    EscapedComesBackAsTwo(Table(), 0x20AC);
  }

  /** At the level of septets everything but the escape comes back: the text read from them encodes to them. */
  lemma {:induction false} SeptetsRoundTrip(t: seq<Entry>, cs: seq<octet>)
    requires IsGsmTable(t) && OneToOne(t) && forall i :: 0 <= i < |cs| ==> IsSeptet(cs[i]) && cs[i] != ESCAPE
    ensures TextSeptets(t, DecodeSeptets(t, cs)) == cs
    decreases |cs|
  {
    if cs != [] {
      SeptetIsOwnCode(t, cs[0]);
      SeptetsRoundTrip(t, cs[1..]);
      var text := DecodeSeptets(t, cs);
      assert text[0] == Wide(t, cs[0]) && text[1..] == DecodeSeptets(t, cs[1..]);
      assert cs == [cs[0]] + cs[1..];
    }
  }

  function Repeated(wc: int, n: nat): (r: seq<int>)
    ensures |r| == n && forall i :: 0 <= i < n ==> r[i] == wc
  {
    seq(n, _ => wc)
  }

  lemma {:induction false} RepeatedSeptets(t: seq<Entry>, wc: int, n: nat)
    requires IsBasic(t, wc)
    ensures |TextSeptets(t, Repeated(wc, n))| == n && !EndsEscaped(t, Repeated(wc, n))
  {
    if n > 0 {
      RepeatedSeptets(t, wc, n - 1);
      assert Repeated(wc, n)[1..] == Repeated(wc, n - 1);
    }
  }

  /** A text of commercial ats that takes exactly the septets there are is refused, whatever their number. */
  lemma FullTextRefused(max: nat)
    requires max > 0
    ensures var text := Repeated(0x40, max);
      AllBasic(Table(), text) && |TextSeptets(Table(), text)| == max && !EncodeFrom(Table(), text, max, 0).ok
  {
    AtSignIsBasic();
    RepeatedSeptets(Table(), 0x40, max);
    EncodeExact(Table(), Repeated(0x40, max), max, 0);
  }

  /** It is refused only once its septets have been written, all of them. */
  lemma {:induction false} FullTextWritten(t: seq<Entry>, wc: int, k: nat, n: nat)
    requires IsBasic(t, wc)
    ensures |EncodeFrom(t, Repeated(wc, k), n + k, n).septets| == k
    decreases k
  {
    if k > 0 {
      FullTextWritten(t, wc, k - 1, n + 1);
      assert Repeated(wc, k)[1..] == Repeated(wc, k - 1);
    }
  }
}
