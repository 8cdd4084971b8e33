/** chan_vgsm/bcd.c: addresses as semi-octets (section 9.1.2.3 of 3GPP TS 23.040). */
module Bcd {
  import opened Bits
  import opened Hex
  import opened Text

  const FILLER := 15

  function CharToBcd(c: char): octet
  {
    match c
    case '*' => 10
    case '#' => 11
    case 'a' => 12
    case 'b' => 13
    case 'c' => 14
    case 'd' => 15
    case _ => (c as int - '0' as int) % 256
  }

  function BcdToChar(n: octet): char
  {
    match n
    case 10 => '*'
    case 11 => '#'
    case 12 => 'a'
    case 13 => 'b'
    case 14 => 'c'
    case 15 => 'd'
    case _ => ('0' as int + n) as char
  }

  /** vgsm_text_to_bcd() as a value: the first digit of each pair in the low nibble. */
  function SemiOctets(digits: string): (r: seq<octet>)
    ensures |r| == (|digits| + 1) / 2
  {
    if digits == "" then []
    else if |digits| == 1 then [OrOctet(CharToBcd(digits[0]), 0xf0)]
    else [OrOctet(CharToBcd(digits[0]), Shl(CharToBcd(digits[1]), 4))] + SemiOctets(digits[2..])
  }

  function Nibble(b: seq<octet>, i: nat): nat
    requires i < 2 * |b|
  {
    if i % 2 == 1 then b[i / 2] / 16 else b[i / 2] % 16
  }

  /** The characters of the first n nibbles, fillers left out. */
  function Digits(b: seq<octet>, n: nat): (r: string)
    requires n <= 2 * |b|
    ensures |r| <= n
  {
    if n == 0 then ""
    else if Nibble(b, n - 1) == FILLER then Digits(b, n - 1)
    else Digits(b, n - 1) + [BcdToChar(Nibble(b, n - 1))]
  }

  predicate IsDigitChar(c: char)
  {
    '0' <= c <= '9' || c == '*' || c == '#' || 'a' <= c <= 'd'
  }

  ghost predicate AllDigits(s: string) { forall i :: 0 <= i < |s| ==> IsDigitChar(s[i]) }

  /** What can come back: 'd' shares its nibble with the filler. */
  function WithoutD(s: string): (r: string)
    ensures |r| <= |s|
  {
    if s == "" then ""
    else
      var n := |s| - 1;
      if s[n] == 'd' then WithoutD(s[..n]) else WithoutD(s[..n]) + [s[n]]
  }

  lemma CharBack(c: char)
    requires IsDigitChar(c)
    ensures CharToBcd(c) < 16 && BcdToChar(CharToBcd(c)) == c
    ensures CharToBcd(c) == FILLER <==> c == 'd'
  {
  }

  /** The semi-octets in their order (section 9.1.2.3 of 3GPP TS 23.040), with 'd' where the standard has the filler. */
  const SEMI_OCTETS: string := "0123456789*#abcd"

  /** Digits and nibbles are each other's as they are numbered there. */
  lemma NibbleExact(c: char, n: nat)
    requires IsDigitChar(c) && n < 16
    ensures CharToBcd(c) == n <==> c == SEMI_OCTETS[n]
    ensures BcdToChar(n) == SEMI_OCTETS[n]
  {
    assert '0' as int == 48 && SEMI_OCTETS[n] as int == if n < 10 then 48 + n else BcdToChar(n) as int;
  }

  lemma ShlOnce(x: nat, k: nat)
    requires 2 * x < 256 && k > 0
    ensures Shl(x, k) == Shl(2 * x, k - 1)
    ensures k == 1 ==> Shl(x, k) == 2 * x
  {
    assert 2 * x % 256 == 2 * x;
  }

  lemma ShlFour(x: nat)
    requires x < 16
    ensures Shl(x, 4) == 16 * x
  {
    hide Shl;
    ShlOnce(x, 4);
    ShlOnce(2 * x, 3);
    ShlOnce(4 * x, 2);
    ShlOnce(8 * x, 1);
  }

  lemma {:induction false} OrCommutes(a: nat, b: nat)
    ensures Or(a, b) == Or(b, a)
    decreases a + b
  {
    if a + b > 0 { OrCommutes(a / 2, b / 2); }
  }

  lemma PairNibbles(lo: nat, hi: nat)
    requires lo < 16 && hi < 16
    ensures OrOctet(lo, Shl(hi, 4)) == lo + 16 * hi
  {
    Pow2Values();
    ShlFour(hi);
    OrCommutes(lo, 16 * hi);
    NibblesJoin(hi, lo);
  }

  /** The octet for digits 2i and 2i + 1, or for the last digit alone. */
  function PairAt(s: string, i: nat): octet
    requires 2 * i < |s|
  {
    if 2 * i + 1 < |s| then OrOctet(CharToBcd(s[2 * i]), Shl(CharToBcd(s[2 * i + 1]), 4))
    else OrOctet(CharToBcd(s[2 * i]), 0xf0)
  }

  lemma {:induction false} SemiOctetAt(s: string, i: nat)
    requires 2 * i < |s|
    ensures SemiOctets(s)[i] == PairAt(s, i)
    decreases i
  {
    if i > 0 { SemiOctetAt(s[2..], i - 1); }
  }

  /** The high nibble that goes with digit 2i. */
  function SecondOf(s: string, i: nat): octet
    requires 2 * i < |s|
  {
    if 2 * i + 1 < |s| then CharToBcd(s[2 * i + 1]) else FILLER
  }

  lemma PairValue(s: string, i: nat)
    requires 2 * i < |s| && AllDigits(s)
    ensures PairAt(s, i) == CharToBcd(s[2 * i]) + 16 * SecondOf(s, i)
    ensures CharToBcd(s[2 * i]) < 16 && SecondOf(s, i) < 16
  {
    var lo := CharToBcd(s[2 * i]);
    CharBack(s[2 * i]);
    if 2 * i + 1 < |s| {
      CharBack(s[2 * i + 1]);
      PairNibbles(lo, CharToBcd(s[2 * i + 1]));
    } else {
      OrCommutes(lo, 240);
      NibblesJoin(FILLER, lo);
    }
  }

  lemma OctetParts(s: string, i: nat)
    requires 2 * i < |s| && AllDigits(s)
    ensures var b := SemiOctets(s)[i]; b % 16 == CharToBcd(s[2 * i]) && b / 16 == SecondOf(s, i)
  {
    hide CharToBcd, SemiOctets, Shl, SecondOf;
    SemiOctetAt(s, i);
    PairValue(s, i);
    NibbleParts(CharToBcd(s[2 * i]), SecondOf(s, i));
  }

  /** Octet i has digit 2i in its low nibble, and the next one, or a filler, in its high nibble. */
  lemma OctetOfDigits(s: string, i: nat)
    requires 2 * i < |s| && AllDigits(s)
    ensures var b := SemiOctets(s)[i];
      && SEMI_OCTETS[b % 16] == s[2 * i]
      && if 2 * i + 1 < |s| then SEMI_OCTETS[b / 16] == s[2 * i + 1] else b / 16 == 15
  {
    hide CharToBcd, SemiOctets;
    var b := SemiOctets(s)[i];
    OctetParts(s, i);
    NibbleExact(s[2 * i], b % 16);
    if 2 * i + 1 < |s| { NibbleExact(s[2 * i + 1], b / 16); }
  }

  lemma NibbleParts(lo: nat, hi: nat)
    requires lo < 16
    ensures (lo + 16 * hi) % 16 == lo && (lo + 16 * hi) / 16 == hi
  {
  }

  /** Nibble i of the semi-octets is digit i; past an odd number of digits comes the filler. */
  lemma NibbleOfDigit(s: string, i: nat)
    requires AllDigits(s) && i < 2 * |SemiOctets(s)|
    ensures Nibble(SemiOctets(s), i) == if i < |s| then CharToBcd(s[i]) else FILLER
  {
    var k := i / 2;
    var b := SemiOctets(s)[k];
    assert b == CharToBcd(s[2 * k]) + 16 * SecondOf(s, k) && CharToBcd(s[2 * k]) < 16 by {
      SemiOctetAt(s, k);
      PairValue(s, k);
    }
    NibbleParts(CharToBcd(s[2 * k]), SecondOf(s, k));
    assert i == 2 * k || i == 2 * k + 1;
  }

  /** Reading back an address, with the exact number of nibbles (TP addresses) or with that number rounded up
      to whole octets (the SMSC address), gives its digits without any 'd'. */
  lemma {:induction false} AddressReads(s: string, n: nat)
    requires AllDigits(s) && n <= 2 * |SemiOctets(s)|
    ensures Digits(SemiOctets(s), n) == WithoutD(s[..if n <= |s| then n else |s|])
    decreases n
  {
    if n > 0 {
      AddressReads(s, n - 1);
      NibbleOfDigit(s, n - 1);
      if n <= |s| {
        CharBack(s[n - 1]);
        assert s[..n][..n - 1] == s[..n - 1];
      }
    }
  }

  lemma {:induction false} WithoutDIsWhole(s: string)
    ensures WithoutD(s) == s <==> 'd' !in s
    ensures 'd' in s ==> |WithoutD(s)| < |s|
  {
    if s != "" {
      var n := |s| - 1;
      WithoutDIsWhole(s[..n]);
      assert s == s[..n] + [s[n]];
      assert 'd' in s <==> 'd' in s[..n] || s[n] == 'd';
    }
  }

  /** An address comes back exactly when it has no 'd', both ways of counting nibbles. */
  lemma AddressRoundTrip(s: string)
    requires AllDigits(s)
    ensures Digits(SemiOctets(s), |s|) == s <==> 'd' !in s
    ensures Digits(SemiOctets(s), 2 * |SemiOctets(s)|) == s <==> 'd' !in s
  {
    AddressReads(s, |s|);
    AddressReads(s, 2 * |SemiOctets(s)|);
    assert s[..|s|] == s;
    WithoutDIsWhole(s);
  }

  /** vgsm_text_to_bcd() at buf + at; returns the number of nibbles. */
  method TextToBcd(buf: array<octet>, at: nat, str: string) returns (nibbles: nat)
    requires at + (|str| + 1) / 2 <= buf.Length
    modifies buf
    ensures nibbles == |str|
    ensures buf[at..at + (|str| + 1) / 2] == SemiOctets(str)
    ensures forall j :: 0 <= j < at || at + (|str| + 1) / 2 <= j < buf.Length ==> buf[j] == old(buf[j])
  {
    nibbles := |str|;
    var octets := (nibbles + 1) / 2;
    var i := 0;
    while i < octets
      invariant i <= octets
      invariant forall j :: 0 <= j < at || at + i <= j < buf.Length ==> buf[j] == old(buf[j])
      invariant forall j :: 0 <= j < i ==> buf[at + j] == SemiOctets(str)[j]
    {
      SemiOctetAt(str, i);
      if i * 2 < nibbles - 1 {
        buf[at + i] := OrOctet(CharToBcd(str[i * 2]), Shl(CharToBcd(str[i * 2 + 1]), 4));
      } else {
        buf[at + i] := OrOctet(CharToBcd(str[i * 2]), 0xf0);
      }
      i := i + 1;
    }
  }

  lemma DigitsNext(b: seq<octet>, i: nat)
    requires i < 2 * |b|
    ensures Digits(b, i + 1) == Digits(b, i) + if Nibble(b, i) == FILLER then [] else [BcdToChar(Nibble(b, i))]
  {
  }

  method ReadNibble(buf: array<octet>, at: nat, i: nat) returns (n: nat)
    requires at + i / 2 < buf.Length
    ensures n == Nibble(buf[at..], i)
  {
    var b := buf[at + i / 2];
    n := if i % 2 == 1 then b / 16 else b % 16;
  }

  /** vgsm_bcd_to_text() into a string of strLen characters: None, and -1 in C, when it does not fit. */
  method BcdToText(buf: array<octet>, at: nat, nibbles: nat, strLen: nat) returns (r: Option<string>)
    requires at + (nibbles + 1) / 2 <= buf.Length && strLen > 0
    ensures var d := Digits(buf[at..], nibbles); r == if |d| <= strLen - 1 then Some(d) else None
  {
    var str := "";
    var i := 0;
    ghost var b := buf[at..];
    while i < nibbles
      invariant i <= nibbles
      invariant str == Digits(b, i) && |str| <= strLen - 1
    {
      var bcd := ReadNibble(buf, at, i);
      DigitsNext(b, i);
      if bcd != FILLER {
        if |str| >= strLen - 1 {
          DigitsGrow(b, i + 1, nibbles);
          return None;
        }
        str := str + [BcdToChar(bcd)];
      }
      i := i + 1;
    }
    return Some(str);
  }

  lemma {:induction false} DigitsGrow(b: seq<octet>, m: nat, n: nat)
    requires m <= n <= 2 * |b|
    ensures |Digits(b, m)| <= |Digits(b, n)|
    decreases n
  {
    if m < n { DigitsGrow(b, m, n - 1); }
  }
}
