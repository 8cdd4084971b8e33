/** chan_vgsm/base64.c: the encoding of section 4 of RFC 4648 and its decoder. */
module Base64 {
  import opened Bits
  import opened Text

  /** codes[]. */
  function Code(v: nat): char
    requires v < 64
  {
    if v < 26 then ('A' as int + v) as char
    else if v < 52 then ('a' as int + v - 26) as char
    else if v < 62 then ('0' as int + v - 52) as char
    else if v == 62 then '+' else '/'
  }

  /** base64_value[]: '=' stands for zero, and -1 for a character that is skipped. */
  function Value(c: char): (v: int)
    ensures -1 <= v < 64
  {
    if 'A' <= c <= 'Z' then c as int - 'A' as int
    else if 'a' <= c <= 'z' then c as int - 'a' as int + 26
    else if '0' <= c <= '9' then c as int - '0' as int + 52
    else if c == '+' then 62
    else if c == '/' then 63
    else if c == '=' then 0
    else -1
  }

  lemma CodeBack(v: nat)
    requires v < 64
    ensures Value(Code(v)) == v && Code(v) != '\0'
  {
  }

  /** The alphabet of table 1 in section 4 of RFC 4648. */
  const CAPITALS: string := "ABCDEFGHIJKLMNOPQRSTUVWXYZ"
  const SMALL: string := "abcdefghijklmnopqrstuvwxyz"
  const FIGURES: string := "0123456789"
  const ALPHABET: string := CAPITALS + SMALL + FIGURES + "+/"

  lemma CapitalsRun(k: nat)
    requires k < 26
    ensures |CAPITALS| == 26 && CAPITALS[k] as int == 'A' as int + k
  {
  }

  lemma SmallRun(k: nat)
    requires k < 26
    ensures |SMALL| == 26 && SMALL[k] as int == 'a' as int + k
  {
  }

  lemma FiguresRun(k: nat)
    requires k < 10
    ensures |FIGURES| == 10 && FIGURES[k] as int == '0' as int + k
  {
  }

  /** The codes are that alphabet. */
  lemma CodeIs(v: nat)
    requires v < 64
    ensures |ALPHABET| == 64 && Code(v) == ALPHABET[v]
  {
    CapitalsRun(if v < 26 then v else 0);
    SmallRun(if 26 <= v < 52 then v - 26 else 0);
    FiguresRun(if 52 <= v < 62 then v - 52 else 0);
  }

  /** A character is skipped exactly when it is neither in the alphabet nor '='. */
  lemma ValueExact(c: char)
    ensures |ALPHABET| == 64
    ensures Value(c) < 0 <==> c !in ALPHABET && c != '='
    ensures c in ALPHABET ==> ALPHABET[Value(c)] == c
    ensures c == '=' ==> Value(c) == 0
  {
    CodeIs(0);
    if c in ALPHABET {
      var i :| 0 <= i < |ALPHABET| && ALPHABET[i] == c;
      CodeIs(i);
      CodeBack(i);
    }
    if Value(c) >= 0 && c != '=' {
      CodeIs(Value(c));
      assert Code(Value(c)) == c;
    }
  }

  /** The four values of three octets. */
  function First(a: octet): (v: nat)
    ensures v < 64
  {
    a / 4 % 64
  }

  function Second(a: octet, b: octet): (v: nat)
    ensures v < 64
  {
    (a % 4 * 16 + b / 16) % 64
  }

  function Third(b: octet, c: octet): (v: nat)
    ensures v < 64
  {
    (b % 16 * 4 + c / 64) % 64
  }

  function Fourth(c: octet): (v: nat)
    ensures v < 64
  {
    c % 64
  }

  /** Three octets as four characters. */
  function Quad(a: octet, b: octet, c: octet): (r: string)
    ensures |r| == 4
  {
    [Code(First(a)), Code(Second(a, b)), Code(Third(b, c)), Code(Fourth(c))]
  }

  function EncodeBytes(x: seq<octet>): string
  {
    if x == [] then ""
    else if |x| == 1 then Quad(x[0], 0, 0)[..2] + "=="
    else if |x| == 2 then Quad(x[0], x[1], 0)[..3] + "="
    else Quad(x[0], x[1], x[2]) + EncodeBytes(x[3..])
  }

  /** What the decoder sees in a string. */
  function Values(s: string): (r: seq<nat>)
    ensures |r| <= |s| && forall i :: 0 <= i < |r| ==> r[i] < 64
  {
    if s == "" then [] else if Value(s[0]) < 0 then Values(s[1..]) else [Value(s[0])] + Values(s[1..])
  }

  function Triple(a: nat, b: nat, c: nat, d: nat): (r: seq<octet>)
    ensures |r| == 3
  {
    var bits := 262144 * a + 4096 * b + 64 * c + d;
    [bits / 65536 % 256, bits / 256 % 256, bits % 256]
  }

  /** Whole groups of four values; what is left over is dropped. */
  function Decoded(vs: seq<nat>): (r: seq<octet>)
    ensures |r| == 3 * (|vs| / 4)
  {
    if |vs| < 4 then [] else Triple(vs[0], vs[1], vs[2], vs[3]) + Decoded(vs[4..])
  }

  // ---------------------------------------------------------------- round trip

  /** ceil(n / 3), the number of groups. */
  function Groups(n: nat): nat { if n == 0 then 0 else if n <= 3 then 1 else 1 + Groups(n - 3) }

  lemma {:induction false} GroupsIsCeiling(n: nat)
    ensures Groups(n) == (n + 2) / 3
  {
    if n > 3 {
      GroupsIsCeiling(n - 3);
      assert (n + 2) / 3 == (n - 3 + 2) / 3 + 1;
    }
  }

  lemma {:induction false} EncodedLength(x: seq<octet>)
    ensures |EncodeBytes(x)| == 4 * Groups(|x|)
  {
    if |x| >= 3 { EncodedLength(x[3..]); }
  }

  lemma ValueParts(a: octet, b: octet, c: octet)
    ensures a == 4 * First(a) + a % 4 && Second(a, b) == 16 * (a % 4) + b / 16
    ensures b == 16 * (b / 16) + b % 16 && Third(b, c) == 4 * (b % 16) + c / 64
    ensures c == 64 * (c / 64) + Fourth(c)
  {
  }

  lemma Shifts(a: octet, b: octet, c: octet, bits: nat)
    requires bits == 65536 * a + 256 * b + c
    ensures bits / 65536 % 256 == a && bits / 256 % 256 == b && bits % 256 == c
  {
    assert bits == 256 * (256 * a + b) + c;
    assert bits / 256 == 256 * a + b;
    assert bits == 65536 * a + (256 * b + c);
    assert bits / 65536 == a;
  }

  lemma Regrouped(a: nat, b: nat, c: nat, v0: nat, v1: nat, v2: nat, v3: nat, p: nat, q: nat, r: nat, s: nat)
    requires a == 4 * v0 + p && v1 == 16 * p + q && b == 16 * q + r && v2 == 4 * r + s && c == 64 * s + v3
    ensures 262144 * v0 + 4096 * v1 + 64 * v2 + v3 == 65536 * a + 256 * b + c
  {
  }

  /** The four values of a quad, in base 64, are the number that its three octets are in base 256. */
  lemma QuadNumber(a: octet, b: octet, c: octet)
    ensures 262144 * First(a) + 4096 * Second(a, b) + 64 * Third(b, c) + Fourth(c) == 65536 * a + 256 * b + c
  {
    ValueParts(a, b, c);
    Regrouped(a, b, c, First(a), Second(a, b), Third(b, c), Fourth(c), a % 4, b / 16, b % 16, c / 64);
  }

  lemma TripleOf(v0: nat, v1: nat, v2: nat, v3: nat, a: octet, b: octet, c: octet)
    requires 262144 * v0 + 4096 * v1 + 64 * v2 + v3 == 65536 * a + 256 * b + c
    ensures Triple(v0, v1, v2, v3) == [a, b, c]
  {
    Shifts(a, b, c, 262144 * v0 + 4096 * v1 + 64 * v2 + v3);
  }

  lemma {:induction false} ValuesAppend(s: string, t: string)
    ensures Values(s + t) == Values(s) + Values(t)
    decreases |s|
  {
    if s == "" {
      assert s + t == t;
    } else {
      assert (s + t)[0] == s[0] && (s + t)[1..] == s[1..] + t;
      ValuesAppend(s[1..], t);
    }
  }

  lemma ValuesNext(s: string)
    requires s != "" && Value(s[0]) >= 0
    ensures Values(s) == [Value(s[0])] + Values(s[1..])
  {
  }

  lemma ValuesOfFour(s: string)
    requires |s| == 4 && forall i :: 0 <= i < 4 ==> Value(s[i]) >= 0
    ensures Values(s) == [Value(s[0]), Value(s[1]), Value(s[2]), Value(s[3])]
  {
    ValuesNext(s);
    ValuesNext(s[1..]);
    ValuesNext(s[2..]);
    ValuesNext(s[3..]);
    assert s[1..][1..] == s[2..] && s[2..][1..] == s[3..] && s[3..][1..] == "";
  }

  lemma ValueOfOne(c: char)
    requires Value(c) >= 0
    ensures Values([c]) == [Value(c)]
  {
    assert Values([c][1..]) == [];
  }

  lemma GroupDecodes(s: string, a: octet, b: octet, c: octet, vs: seq<nat>)
    requires |s| == 4 && Value(s[0]) == First(a) && Value(s[1]) == Second(a, b)
    requires Value(s[2]) == Third(b, c) && Value(s[3]) == Fourth(c)
    ensures Decoded(Values(s) + vs) == [a, b, c] + Decoded(vs)
  {
    ValuesOfFour(s);
    QuadNumber(a, b, c);
    TripleOf(First(a), Second(a, b), Third(b, c), Fourth(c), a, b, c);
    assert (Values(s) + vs)[4..] == vs;
  }

  lemma QuadDecodes(a: octet, b: octet, c: octet, vs: seq<nat>)
    ensures Decoded(Values(Quad(a, b, c)) + vs) == [a, b, c] + Decoded(vs)
  {
    CodeBack(First(a));
    CodeBack(Second(a, b));
    CodeBack(Third(b, c));
    CodeBack(Fourth(c));
    GroupDecodes(Quad(a, b, c), a, b, c, vs);
  }

  /** The octets that make up a whole group, which '=' stands for. */
  function Padding(n: nat): (r: seq<octet>)
    ensures |r| == 3 * Groups(n) - n
    decreases n
  {
    if n == 0 || n == 3 then [] else if n == 1 then [0, 0] else if n == 2 then [0] else Padding(n - 3)
  }

  lemma TwoDecode(a: octet, b: octet)
    ensures Decoded(Values(Quad(a, b, 0)[..3] + "=")) == [a, b, 0]
  {
    CodeBack(First(a));
    CodeBack(Second(a, b));
    CodeBack(Third(b, 0));
    var s := Quad(a, b, 0)[..3] + "=";
    GroupDecodes(s, a, b, 0, []);
    assert Values(s) + [] == Values(s);
  }

  lemma OneDecodes(a: octet)
    ensures Decoded(Values(Quad(a, 0, 0)[..2] + "==")) == [a, 0, 0]
  {
    CodeBack(First(a));
    CodeBack(Second(a, 0));
    var s := Quad(a, 0, 0)[..2] + "==";
    GroupDecodes(s, a, 0, 0, []);
    assert Values(s) + [] == Values(s);
  }

  /** Encoded octets come back, with the zeros that '=' decodes to behind them. */
  lemma {:induction false} EncodeDecodes(x: seq<octet>)
    ensures Decoded(Values(EncodeBytes(x))) == x + Padding(|x|)
    decreases |x|
  {
    if |x| == 0 {
    } else if |x| == 1 {
      OneDecodes(x[0]);
      assert x + [0, 0] == [x[0], 0, 0];
    } else if |x| == 2 {
      TwoDecode(x[0], x[1]);
      assert x + [0] == [x[0], x[1], 0];
    } else {
      EncodeDecodes(x[3..]);
      NextGroup(x);
      PaddingLater(x);
    }
  }

  lemma PaddingLater(x: seq<octet>)
    requires |x| >= 3
    ensures x + Padding(|x|) == [x[0], x[1], x[2]] + (x[3..] + Padding(|x[3..]|))
  {
    assert x == [x[0], x[1], x[2]] + x[3..];
  }

  lemma NextGroup(x: seq<octet>)
    requires |x| >= 3
    ensures Decoded(Values(EncodeBytes(x))) == [x[0], x[1], x[2]] + Decoded(Values(EncodeBytes(x[3..])))
  {
    ValuesAppend(Quad(x[0], x[1], x[2]), EncodeBytes(x[3..]));
    QuadDecodes(x[0], x[1], x[2], Values(EncodeBytes(x[3..])));
  }

  /** A string without the characters that the decoder skips. */
  function Strip(s: string): string
  {
    if s == "" then "" else if Value(s[0]) < 0 then Strip(s[1..]) else [s[0]] + Strip(s[1..])
  }

  lemma {:induction false} NoiseIsSkipped(s: string)
    ensures Values(Strip(s)) == Values(s)
    decreases |s|
  {
    if s != "" {
      NoiseIsSkipped(s[1..]);
      if Value(s[0]) >= 0 {
        ValuesAppend([s[0]], Strip(s[1..]));
        ValueOfOne(s[0]);
      }
    }
  }

  /** The octets written into a destination of the given size: a group is begun only where four more fit. */
  function Fitting(size: nat): nat { if size < 2 then 0 else (size - 2) / 3 }

  function Written(s: string, size: nat): seq<octet>
  {
    var all := Decoded(Values(s));
    if 3 * Fitting(size) < |all| then all[..3 * Fitting(size)] else all
  }

  lemma FittingIs(size: nat, g: nat)
    ensures Fitting(size) >= g <==> g == 0 || size >= 3 * g + 2
  {
  }

  /** What is cut off by a destination that is too small for g groups. */
  lemma FittingCut(all: seq<octet>, w: seq<octet>, size: nat, g: nat)
    requires |all| == 3 * g && w == if 3 * Fitting(size) < |all| then all[..3 * Fitting(size)] else all
    ensures w == all <==> g == 0 || size >= 3 * g + 2
  {
    FittingIs(size, g);
  }

  /** A destination of 3 * ceil(n / 3) + 2 octets is enough for n octets, and no less is unless n is zero; other
      characters in between change nothing, and what follows a NUL is not seen. */
  lemma RoundTrip(x: seq<octet>, s: string, size: nat)
    requires Strip(UpToNul(s)) == EncodeBytes(x)
    ensures Written(UpToNul(s), size) == x + Padding(|x|) <==> x == [] || size >= 3 * Groups(|x|) + 2
  {
    hide Decoded, Values, EncodeBytes, Strip, Fitting;
    NoiseIsSkipped(UpToNul(s));
    EncodeDecodes(x);
    FittingCut(x + Padding(|x|), Written(UpToNul(s), size), size, Groups(|x|));
  }

  // ---------------------------------------------------------------- the loops

  lemma {:induction false} DecodedAppends(vs: seq<nat>, g: seq<nat>)
    requires |vs| % 4 == 0
    ensures Decoded(vs + g) == Decoded(vs) + Decoded(g)
    decreases |vs|
  {
    if vs == [] {
      assert vs + g == g;
    } else {
      assert (vs + g)[4..] == vs[4..] + g;
      DecodedAppends(vs[4..], g);
    }
  }

  /** The number that the values of an unfinished group make. */
  function Gathered(g: seq<nat>): nat
  {
    if g == [] then 0 else 64 * Gathered(g[..|g| - 1]) + g[|g| - 1]
  }

  lemma GatheredFour(g: seq<nat>)
    requires |g| == 4
    ensures Gathered(g) == 262144 * g[0] + 4096 * g[1] + 64 * g[2] + g[3]
  {
    assert g[..3][..2] == g[..2] && g[..2][..1] == g[..1] && g[..1][..0] == [];
    assert Gathered(g[..1]) == g[0];
    assert Gathered(g[..2]) == 64 * g[0] + g[1];
    assert Gathered(g[..3]) == 64 * Gathered(g[..2]) + g[2];
  }

  lemma GatheredNext(g: seq<nat>, v: nat)
    ensures Gathered(g + [v]) == 64 * Gathered(g) + v
  {
    assert (g + [v])[..|g|] == g;
  }

  /** With `whole` decoded, the values g gathered and s[k..] to come. */
  ghost predicate Midway(s: string, k: nat, whole: seq<octet>, g: seq<nat>)
  {
    k <= |s| && |g| < 4 && Decoded(Values(s)) == whole + Decoded(g + Values(s[k..]))
  }

  lemma MidwayStarts(s: string)
    ensures Midway(s, 0, [], [])
  {
    assert s[0..] == s && [] + Values(s) == Values(s);
  }

  lemma MidwayNext(s: string, k: nat, whole: seq<octet>, g: seq<nat>)
    requires Midway(s, k, whole, g) && k < |s|
    ensures Value(s[k]) < 0 ==> Midway(s, k + 1, whole, g)
    ensures Value(s[k]) >= 0 && |g| < 3 ==> Midway(s, k + 1, whole, g + [Value(s[k])])
    ensures Value(s[k]) >= 0 && |g| == 3 ==> Midway(s, k + 1, whole + Triple(g[0], g[1], g[2], Value(s[k])), [])
  {
    hide Value, Triple;
    assert s[k..][0] == s[k] && s[k..][1..] == s[k + 1..];
    if Value(s[k]) >= 0 {
      var more := Values(s[k + 1..]);
      assert g + Values(s[k..]) == g + [Value(s[k])] + more;
      if |g| == 3 {
        var four := g + [Value(s[k])];
        assert (four + more)[4..] == more;
        assert [] + more == more;
        assert whole + (Triple(g[0], g[1], g[2], Value(s[k])) + Decoded(more))
            == whole + Triple(g[0], g[1], g[2], Value(s[k])) + Decoded(more);
      }
    }
  }

  /** The loop stops at the end, or where no further group may be begun. */
  lemma MidwayEnds(s: string, k: nat, whole: seq<octet>, g: seq<nat>, size: nat, groups: nat)
    requires Midway(s, k, whole, g) && |whole| == 3 * groups && (groups == 0 || 3 * groups + 2 <= size)
    requires k == |s| || 3 * groups + 4 >= size
    ensures Written(s, size) == whole
  {
    FittingIs(size, groups);
    FittingIs(size, groups + 1);
    if k == |s| { assert g + Values(s[k..]) == g; }
  }

  /** One value more: the group it completes goes out. */
  method Gather(dest: array<octet>, outpos: nat, bits: nat, noctets: nat, v: nat, ghost g: seq<nat>)
    returns (pos: nat, more: nat, n: nat)
    requires |g| == noctets < 4 && bits == Gathered(g) && outpos + 4 < dest.Length && v < 64
    modifies dest
    ensures noctets < 3 ==> pos == outpos && more == Gathered(g + [v]) && n == noctets + 1 && dest[..] == old(dest[..])
    ensures noctets == 3 ==> pos == outpos + 3 && more == 0 && n == 0
    ensures noctets == 3 ==> dest[..pos] == old(dest[..outpos]) + Triple(g[0], g[1], g[2], v)
  {
    pos, more, n := outpos, bits * 64 + v, noctets + 1;
    GatheredNext(g, v);
    if n < 4 { return; }
    GatheredFour(g + [v]);
    dest[pos] := more / 65536 % 256;
    dest[pos + 1] := more / 256 % 256;
    dest[pos + 2] := more % 256;
    assert dest[..pos + 3] == dest[..pos] + [dest[pos], dest[pos + 1], dest[pos + 2]];
    pos, more, n := pos + 3, 0, 0;
  }

  /** base64_decode(). */
  method Decode(src: string, dest: array<octet>) returns (outpos: nat)
    requires dest.Length > 0
    modifies dest
    ensures outpos < dest.Length && dest[..outpos] == Written(UpToNul(src), dest.Length) && dest[outpos] == 0
  {
    NulEnds(src);
    outpos := DecodeGroups(src, UpToNul(src), dest);
    dest[outpos] := 0;
  }

  /** The loop over the characters of src, of which s are before its terminator. */
  method DecodeGroups(src: string, ghost s: string, dest: array<octet>) returns (outpos: nat)
    requires dest.Length > 0 && s <= src && '\0' !in s && (|s| < |src| ==> src[|s|] == '\0')
    modifies dest
    ensures outpos < dest.Length && dest[..outpos] == Written(s, dest.Length)
  {
    ghost var whole: seq<octet>, g: seq<nat>, groups: nat := [], [], 0;
    var k, bits, noctets := 0, 0, 0;
    outpos := 0;
    MidwayStarts(s);
    while k < |src| && src[k] != '\0' && outpos + 4 < dest.Length
      invariant Midway(s, k, whole, g) && noctets == |g| && bits == Gathered(g)
      invariant outpos == |whole| == 3 * groups && (groups == 0 || outpos + 2 <= dest.Length)
      invariant dest[..outpos] == whole
    {
      outpos, bits, noctets, whole, g := DecodeNext(src[k], dest, outpos, bits, noctets, s, k, whole, g);
      if outpos != 3 * groups { groups := groups + 1; }
      k := k + 1;
    }
    MidwayEnds(s, k, whole, g, dest.Length, groups);
  }

  /** One character of the loop. */
  method DecodeNext(c: char, dest: array<octet>, outpos: nat, bits: nat, noctets: nat,
                    ghost s: string, ghost k: nat, ghost whole: seq<octet>, ghost g: seq<nat>)
    returns (pos: nat, more: nat, n: nat, ghost whole': seq<octet>, ghost g': seq<nat>)
    requires Midway(s, k, whole, g) && k < |s| && c == s[k] && noctets == |g| && bits == Gathered(g)
    requires outpos == |whole| && outpos + 4 < dest.Length && dest[..outpos] == whole
    modifies dest
    ensures Midway(s, k + 1, whole', g') && n == |g'| && more == Gathered(g')
    ensures pos == |whole'| && (pos == outpos || pos == outpos + 3) && dest[..pos] == whole'
  {
    MidwayNext(s, k, whole, g);
    var v := Value(c);
    if v < 0 { return outpos, bits, noctets, whole, g; }
    pos, more, n := Gather(dest, outpos, bits, noctets, v, g);
    if |g| < 3 {
      whole', g' := whole, g + [v];
    } else {
      whole', g' := whole + Triple(g[0], g[1], g[2], v), [];
    }
  }

  method PutQuad(out: array<char>, p: nat, a: octet, b: octet, c: octet)
    requires p + 4 <= out.Length
    modifies out
    ensures out[..p + 4] == old(out[..p]) + Quad(a, b, c)
  {
    out[p] := Code(First(a));
    out[p + 1] := Code(Second(a, b));
    out[p + 2] := Code(Third(b, c));
    out[p + 3] := Code(Fourth(c));
  }

  lemma OneGroupMore(x: seq<octet>)
    requires |x| >= 3
    ensures EncodeBytes(x) == Quad(x[0], x[1], x[2]) + EncodeBytes(x[3..])
  {
  }

  /** Whole groups are encoded one behind the other. */
  lemma {:induction false} EncodedSplits(x: seq<octet>, y: seq<octet>, groups: nat)
    requires |x| == 3 * groups
    ensures EncodeBytes(x + y) == EncodeBytes(x) + EncodeBytes(y)
    decreases groups
  {
    hide Quad;
    if groups == 0 {
      assert x + y == y;
    } else {
      EncodedSplits(x[3..], y, groups - 1);
      OneGroupMore(x);
      OneGroupMore(x + y);
      FrontOfSum(x, y);
    }
  }

  lemma FrontOfSum(x: seq<octet>, y: seq<octet>)
    requires |x| >= 3
    ensures (x + y)[3..] == x[3..] + y && (x + y)[0] == x[0] && (x + y)[1] == x[1] && (x + y)[2] == x[2]
  {
  }

  lemma EncodedCut(x: seq<octet>, i: nat, groups: nat)
    requires i == 3 * groups && i <= |x|
    ensures EncodeBytes(x) == EncodeBytes(x[..i]) + EncodeBytes(x[i..])
  {
    hide Quad, EncodeBytes;
    assert x[..i] + x[i..] == x;
    EncodedSplits(x[..i], x[i..], groups);
  }

  lemma EncodedNext(x: seq<octet>, i: nat, groups: nat)
    requires i == 3 * groups && i + 3 <= |x|
    ensures EncodeBytes(x[..i + 3]) == EncodeBytes(x[..i]) + Quad(x[i], x[i + 1], x[i + 2])
  {
    hide Quad;
    var g := [x[i], x[i + 1], x[i + 2]];
    assert x[..i] + g == x[..i + 3];
    EncodedSplits(x[..i], g, groups);
    OneGroupMore(g);
  }

  /** base64_encode(): 0 and the length, or -ENOSPC and the size it takes. */
  method Encode(x: seq<octet>, out: array<char>, outlen: nat) returns (r: int, len: nat)
    requires outlen <= out.Length
    modifies out
    ensures outlen <= 4 * ((|x| + 2) / 3) ==>
      r == -ENOSPC && len == 4 * ((|x| + 2) / 3) + 1 && out[..] == old(out[..])
    ensures outlen > 4 * ((|x| + 2) / 3) ==>
      r == 0 && len == 4 * ((|x| + 2) / 3) < out.Length && out[..len] == EncodeBytes(x) && out[len] == '\0'
  {
    len := 4 * ((|x| + 2) / 3);
    if outlen < len + 1 { return -ENOSPC, len + 1; }
    EncodedLength(x);
    GroupsIsCeiling(|x|);
    var p := EncodeGroups(x, out);
    out[p] := '\0';
    return 0, p;
  }

  method EncodeGroups(x: seq<octet>, out: array<char>) returns (p: nat)
    requires |EncodeBytes(x)| < out.Length
    modifies out
    ensures p == |EncodeBytes(x)| && out[..p] == EncodeBytes(x)
  {
    var i := 0;
    ghost var groups := 0;
    p := 0;
    while i + 3 <= |x|
      invariant i == 3 * groups <= |x|
      invariant p == |EncodeBytes(x[..i])| <= |EncodeBytes(x)| && out[..p] == EncodeBytes(x[..i])
    {
      EncodedNext(x, i, groups);
      EncodedCut(x, i + 3, groups + 1);
      PutQuad(out, p, x[i], x[i + 1], x[i + 2]);
      i, p, groups := i + 3, p + 4, groups + 1;
    }
    EncodedCut(x, i, groups);
    if i < |x| {
      p := PutLast(x[i..], out, p);
    }
  }

  /** The last one or two octets, padded. */
  method PutLast(x: seq<octet>, out: array<char>, p: nat) returns (q: nat)
    requires 0 < |x| < 3 && p + 4 <= out.Length
    modifies out
    ensures q == p + 4 && out[..q] == old(out[..p]) + EncodeBytes(x)
  {
    var a := x[0];
    var b := if |x| > 1 then x[1] else 0;
    out[p] := Code(First(a));
    out[p + 1] := Code(Second(a, b));
    out[p + 2] := if |x| > 1 then Code(Third(b, 0)) else '=';
    out[p + 3] := '=';
    q := p + 4;
  }
}
