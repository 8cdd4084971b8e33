/** PDUs as hexadecimal text: sprintf("%02x") on the way out, char_to_hexdigit() on the way in. */
module Hex {
  import opened Bits

  function HexDigit(n: nat): char
    requires n < 16
  {
    if n < 10 then ('0' as int + n) as char else ('a' as int + n - 10) as char
  }

  function HexText(bytes: seq<octet>): (r: string)
    ensures |r| == 2 * |bytes|
  {
    if bytes == [] then "" else [HexDigit(bytes[0] / 16), HexDigit(bytes[0] % 16)] + HexText(bytes[1..])
  }

  /** char_to_hexdigit(): -1 for anything that is not a digit. */
  function HexValue(c: char): int
  {
    if '0' <= c <= '9' then c as int - '0' as int
    else if 'a' <= c <= 'f' then c as int - 'a' as int + 10
    else if 'A' <= c <= 'F' then c as int - 'A' as int + 10
    else -1
  }

  /** Either case is read; anything else is not a digit. */
  lemma HexValueExact(c: char)
    ensures HexValue(c) < 0 <==> c !in "0123456789abcdef" && c !in "0123456789ABCDEF"
    ensures HexValue(c) >= 0 ==>
      HexValue(c) < 16 && (c == "0123456789abcdef"[HexValue(c)] || c == "0123456789ABCDEF"[HexValue(c)])
  {
  }

  /** Digits are printed in lower case. */
  lemma HexDigitIs(n: nat)
    requires n < 16
    ensures HexDigit(n) == "0123456789abcdef"[n]
  {
  }

  function UpperDigit(c: char): char { if 'a' <= c <= 'f' then (c as int - 32) as char else c }

  function Upper(s: string): (r: string)
    ensures |r| == |s|
  {
    if s == "" then "" else [UpperDigit(s[0])] + Upper(s[1..])
  }

  /** digit << 4 | digit, stored in an octet. */
  function HexOctet(hi: char, lo: char): octet
  {
    JoinNibbles(HexValue(hi), HexValue(lo))
  }

  function JoinNibbles(hi: int, lo: int): octet
  {
    OrOctet(hi * 16 % 256, lo % 256)
  }

  function ParseHex(s: string): (r: seq<octet>)
    requires |s| % 2 == 0
    ensures |r| == |s| / 2
  {
    if s == "" then [] else [HexOctet(s[0], s[1])] + ParseHex(s[2..])
  }

  lemma DigitBack(n: nat)
    requires n < 16
    ensures HexValue(HexDigit(n)) == n
  {
  }

  lemma {:induction false} OrDisjoint(hi: nat, lo: nat, n: nat)
    requires lo < Pow2(n)
    ensures Or(Pow2(n) * hi, lo) == Pow2(n) * hi + lo
    decreases n
  {
    if n == 0 {
      OrZero(hi);
    } else {
      var y := Pow2(n - 1) * hi;
      assert Pow2(n) * hi == 2 * y;
      OrDisjoint(hi, lo / 2, n - 1);
      assert 2 * y / 2 == y;
    }
  }

  lemma {:induction false} OrZero(x: nat)
    ensures Or(x, 0) == x
  {
    if x > 0 { OrZero(x / 2); }
  }

  lemma NibblesJoin(hi: nat, lo: nat)
    requires hi < 16 && lo < 16
    ensures OrOctet(16 * hi, lo) == 16 * hi + lo
  {
    Pow2Values();
    OrDisjoint(hi, lo, 4);
  }

  lemma DigitsJoin(hi: nat, lo: nat)
    requires hi < 16 && lo < 16
    ensures HexOctet(HexDigit(hi), HexDigit(lo)) == OrOctet(16 * hi, lo)
  {
    assert HexOctet(HexDigit(hi), HexDigit(lo)) == JoinNibbles(hi, lo) by {
      DigitBack(hi);
      DigitBack(lo);
    }
    SmallRemainder(hi * 16, 256);
    SmallRemainder(lo, 256);
  }

  lemma SmallRemainder(x: nat, m: nat)
    requires x < m
    ensures x % m == x
  {
  }

  lemma PairBack(n: octet)
    ensures HexOctet(HexDigit(n / 16), HexDigit(n % 16)) == n
  {
    DigitsJoin(n / 16, n % 16);
    NibblesJoin(n / 16, n % 16);
  }

  /** Reading back printed octets gives them back. */
  lemma {:induction false} HexRoundTrip(bytes: seq<octet>)
    ensures ParseHex(HexText(bytes)) == bytes
  {
    if bytes != [] {
      PairBack(bytes[0]);
      HexRoundTrip(bytes[1..]);
      PrintedPair(bytes);
      assert bytes == [bytes[0]] + bytes[1..];
    }
  }

  lemma PrintedPair(bytes: seq<octet>)
    requires bytes != []
    ensures ParseHex(HexText(bytes))
         == [HexOctet(HexDigit(bytes[0] / 16), HexDigit(bytes[0] % 16))] + ParseHex(HexText(bytes[1..]))
  {
    var s := HexText(bytes);
    assert s[0] == HexDigit(bytes[0] / 16) && s[1] == HexDigit(bytes[0] % 16);
    assert s[2..] == HexText(bytes[1..]);
  }

  lemma {:induction false} ParsedAt(s: string, i: nat)
    requires |s| % 2 == 0 && 2 * i < |s|
    ensures ParseHex(s)[i] == HexOctet(s[2 * i], s[2 * i + 1])
    decreases i
  {
    if i > 0 { ParsedAt(s[2..], i - 1); }
  }

  /** Letters in upper case parse as those in lower case. */
  lemma {:induction false} UpperParses(s: string)
    requires |s| % 2 == 0
    ensures ParseHex(Upper(s)) == ParseHex(s)
    decreases |s|
  {
    if s != "" {
      var u := Upper(s);
      var t := s[1..];
      assert u[1..] == Upper(t) && t != "" && t[1..] == s[2..];
      assert u[0] == UpperDigit(s[0]) && u[1] == u[1..][0] == UpperDigit(t[0]) && t[0] == s[1];
      assert u[2..] == u[1..][1..];
      assert Upper(t)[1..] == Upper(t[1..]);
      SameValue(s[0]);
      SameValue(s[1]);
      UpperParses(s[2..]);
    }
  }

  lemma SameValue(c: char)
    ensures HexValue(UpperDigit(c)) == HexValue(c)
  {
  }

  /** The sprintf() loop of vgsm_req_make_va(). */
  method PrintHex(bytes: seq<octet>) returns (r: string)
    ensures r == HexText(bytes)
  {
    r := "";
    var k := 0;
    while k < |bytes|
      invariant k <= |bytes|
      invariant r + HexText(bytes[k..]) == HexText(bytes)
    {
      r := r + [HexDigit(bytes[k] / 16), HexDigit(bytes[k] % 16)];
      k := k + 1;
    }
  }

  /** The decoding loop of vgsm_sms_deliver_init_from_pdu(); None for an odd number of characters. */
  method ReadHex(s: string) returns (pdu: array?<octet>)
    ensures pdu == null <==> |s| % 2 != 0
    ensures pdu != null ==> fresh(pdu) && pdu[..] == ParseHex(s)
  {
    if |s| % 2 != 0 { return null; }
    var a := new octet[|s| / 2](_ => 0);
    var i := 0;
    while i < a.Length
      invariant i <= a.Length
      invariant forall j :: 0 <= j < i ==> a[j] == ParseHex(s)[j]
    {
      ParsedAt(s, i);
      a[i] := HexOctet(s[2 * i], s[2 * i + 1]);
      i := i + 1;
    }
    return a;
  }
}
