/** chan_vgsm/7bit.c on its buffers: each loop is proved against the function of SevenBit it computes. */
module SevenBitBuffers {
  import opened Bits
  import opened GsmCharset
  import opened SevenBit
  import opened Text

  method WriteSeptet(out: array<octet>, base: nat, septet: nat, c: octet)
    requires base + OutPos(septet) < out.Length
    modifies out
    ensures out[..] == PutSeptet(old(out[..]), base, septet, c)
  {
    var outpos := (septet + 1) * 7 / 8;
    var shift := septet % 8;
    if outpos > 0 {
      out[base + outpos - 1] := OrOctet(out[base + outpos - 1], Shl(c, 8 - shift));
      out[base + outpos] := OrOctet(out[base + outpos], Shr(c, shift));
    } else {
      out[base + outpos] := OrOctet(out[base + outpos], c);
    }
  }

  /** Adds septet n of cs, which is c, to the n already packed at o. */
  method AppendSeptet(out: array<octet>, base: nat, o: nat, n: nat, c: octet, ghost b: seq<octet>, ghost cs: seq<octet>)
    requires |b| == out.Length && n < |cs| && cs[n] == c && Room(|b|, base, o, |cs|)
    requires Room(|b|, base, o, n) && out[..] == PackFirst(b, base, o, cs, n)
    modifies out
    ensures Room(|b|, base, o, n + 1) && out[..] == PackFirst(b, base, o, cs, n + 1)
  {
    OutPosMonotone(o + n, o + |cs| - 1);
    PackFirstNext(b, base, o, cs, n);
    WriteSeptet(out, base, o + n, c);
  }

  /** One turn of the encoding loop: the septets out after it, and whether the character fitted. */
  method EmitCharacter(t: seq<Entry>, wc: int, out: array<octet>, base: nat, max: int, o: nat, n: nat,
                       ghost b: seq<octet>, ghost cs: seq<octet>)
    returns (m: nat, ok: bool)
    requires |b| == out.Length && n <= |cs| && Room(|b|, base, o, |cs|) && Room(|b|, base, o, n)
    requires Holds(cs, n, EncodeOne(t, wc, max, n).septets)
    requires out[..] == PackFirst(b, base, o, cs, n)
    modifies out
    ensures var e := EncodeOne(t, wc, max, n); m == n + |e.septets| <= |cs| && ok == e.ok
    ensures Room(|b|, base, o, m) && out[..] == PackFirst(b, base, o, cs, m)
  {
    var cnt, c, c2 := WideToGsm(t, wc);
    ghost var one := EncodeOne(t, wc, max, n).septets;
    assert |one| > 0 ==> one[0] == c;
    assert |one| > 1 ==> one[1] == c2;
    if cnt < 1 { return n, true; }
    if n >= max { return n, false; }
    assert cs[n] == c;
    AppendSeptet(out, base, o, n, c, b, cs);
    m := n + 1;
    if m >= max { return m, false; }
    if cnt == 2 {
      assert cs[n + 1] == c2;
      AppendSeptet(out, base, o, m, c2, b, cs);
      m := m + 1;
    }
    return m, true;
  }

  /** vgsm_wc_to_7bit(): the septets written, or -ENOSPC. */
  method WideTo7bit(t: seq<Entry>, text: seq<int>, out: array<octet>, base: nat, max: int, offset: nat)
    returns (r: int)
    requires Room(out.Length, base, offset, |EncodeFrom(t, text, max, 0).septets|)
    modifies out
    ensures var e := EncodeFrom(t, text, max, 0);
      && out[..] == Pack(old(out[..]), base, offset, e.septets)
      && r == (if e.ok then |e.septets| else -ENOSPC)
  {
    ghost var e := EncodeFrom(t, text, max, 0);
    assert text[0..] == text && e.septets[0..] == e.septets;
    r := EncodeLoop(t, text, out, base, max, offset, out[..], e);
  }

  /** The same, on the way to the outcome e. */
  method EncodeTurn(t: seq<Entry>, text: seq<int>, at: nat, out: array<octet>, base: nat, max: int, o: nat, n: nat,
                    ghost b: seq<octet>, ghost e: Encoded)
    returns (m: nat, ok: bool)
    requires at < |text| && |b| == out.Length && Room(|b|, base, o, |e.septets|) && Room(|b|, base, o, n)
    requires Underway(t, text, at, max, n, e) && out[..] == PackFirst(b, base, o, e.septets, n)
    modifies out
    ensures ok ==> Underway(t, text, at + 1, max, m, e)
    ensures !ok ==> m == |e.septets| && !e.ok
    ensures m <= |e.septets| && Room(|b|, base, o, m) && out[..] == PackFirst(b, base, o, e.septets, m)
  {
    hide EncodeFrom, PackFirst, EncodeOne;
    EncodeNext(t, text, at, max, n, e);
    m, ok := EmitCharacter(t, text[at], out, base, max, o, n, b, e.septets);
  }

  /** The loop of vgsm_wc_to_7bit(), whose outcome e is known beforehand. */
  method EncodeLoop(t: seq<Entry>, text: seq<int>, out: array<octet>, base: nat, max: int, o: nat,
                    ghost b: seq<octet>, ghost e: Encoded)
    returns (r: int)
    requires |b| == out.Length && Room(|b|, base, o, |e.septets|)
    requires Underway(t, text, 0, max, 0, e) && out[..] == b
    modifies out
    ensures out[..] == PackFirst(b, base, o, e.septets, |e.septets|)
    ensures r == if e.ok then |e.septets| else -ENOSPC
  {
    hide EncodeOne, OutPos;
    var inpos := 0;
    var outsep: nat := 0;
    while inpos < |text|
      invariant inpos <= |text| && Underway(t, text, inpos, max, outsep, e)
      invariant Room(|b|, base, o, outsep) && out[..] == PackFirst(b, base, o, e.septets, outsep)
    {
      var ok;
      outsep, ok := EncodeTurn(t, text, inpos, out, base, max, o, outsep, b, e);
      inpos := inpos + 1;
      if !ok { return -ENOSPC; }
    }
    return outsep;
  }

  method ReadSeptet(buf: array<octet>, base: nat, k: nat) returns (c: octet)
    requires base + SeptetsToOctets(k + 1) <= buf.Length
    ensures c == GetSeptet(buf[..], base, k)
  {
    OutPosValue(k);
    var j := (k + 1) * 7 / 8;
    var shift := k % 8;
    var low := if j > 0 then buf[base + j - 1] else 0;
    var high := if shift < 7 then buf[base + j] else 0;
    c := Window(low, high, 8 - shift);
  }

  /** The characters vgsm_7bit_to_wc() writes before its terminator. */
  function Count(septets: int, outsize: nat): nat
    requires outsize > 0
  {
    if septets <= 0 then 0 else if septets < outsize then septets else outsize - 1
  }

  /** vgsm_7bit_to_wc(): fills `out` with at most out.Length - 1 characters and a terminator. */
  method SevenBitToWide(t: seq<Entry>, buf: array<octet>, base: nat, septets: int, offset: nat, out: array<int>)
    returns (n: nat)
    requires out.Length > 0
    requires Count(septets, out.Length) > 0 ==>
      base + SeptetsToOctets(offset + Count(septets, out.Length)) <= buf.Length
    modifies out
    ensures n == Count(septets, out.Length)
    ensures n > 0 ==> base + SeptetsToOctets(offset + n) <= buf.Length
    ensures out[..n] == DecodeSeptets(t, Unpack(buf[..], base, offset, n)) && out[n] == 0
  {
    hide GetSeptet, Wide, SeptetsToOctets, Unpack, DecodeSeptets;
    n := 0;
    ghost var b := buf[..];
    while n < out.Length - 1 && n < septets
      invariant n <= Count(septets, out.Length)
      invariant n > 0 ==> base + SeptetsToOctets(offset + n) <= |b|
      invariant out[..n] == DecodeSeptets(t, Unpack(b, base, offset, n))
    {
      OctetsMonotone(offset + n + 1, offset + Count(septets, out.Length));
      var c := ReadSeptet(buf, base, n + offset);
      DecodeNext(t, b, base, offset, n);
      out[n] := GsmToWide(t, c);
      assert out[..n + 1] == out[..n] + [out[n]];
      n := n + 1;
    }
    out[n] := 0;
  }

  lemma OctetsMonotone(k: nat, l: nat)
    requires k <= l
    ensures SeptetsToOctets(k) <= SeptetsToOctets(l)
  {
  }

  lemma DecodeNext(t: seq<Entry>, b: seq<octet>, base: nat, o: nat, n: nat)
    requires base + SeptetsToOctets(o + n + 1) <= |b|
    ensures n > 0 ==> base + SeptetsToOctets(o + n) <= |b|
    ensures DecodeSeptets(t, Unpack(b, base, o, n + 1))
         == DecodeSeptets(t, Unpack(b, base, o, n)) + [Wide(t, GetSeptet(b, base, o + n))]
  {
    hide GetSeptet, Wide, DecodeSeptets;
    OctetsMonotone(o + n, o + n + 1);
    DecodeAppends(t, Unpack(b, base, o, n), GetSeptet(b, base, o + n));
  }

  lemma {:induction false} DecodeAppends(t: seq<Entry>, cs: seq<octet>, c: octet)
    ensures DecodeSeptets(t, cs + [c]) == DecodeSeptets(t, cs) + [Wide(t, c)]
    decreases |cs|
  {
    if cs != [] {
      assert (cs + [c])[1..] == cs[1..] + [c];
      DecodeAppends(t, cs[1..], c);
    }
  }
}
