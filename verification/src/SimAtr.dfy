/**
 The answer to reset of a SIM (section 8.2 of ISO/IEC 7816-3) as chan_vgsm/mesim_local.c recognises it: by its
 grammar, and by the walk of the code over the bytes received so far.
 */
module SimAtr {
  import opened Bits
  import opened Text

  type nibble = x: int | 0 <= x < 16

  datatype Flags = Flags(ta: bool, tb: bool, tc: bool, td: bool)

  /** A byte of the answer as the bit fields of atr.h: four bits of value, and four bits that tell, in T0 and TDi,
      which characters come next. */
  datatype Byte = Byte(low: nibble, high: Flags)

  function One(b: bool): nat { if b then 1 else 0 }

  function FromOctet(x: octet): Byte
  {
    Byte(x % 16, Flags(x / 16 % 2 == 1, x / 32 % 2 == 1, x / 64 % 2 == 1, x / 128 % 2 == 1))
  }

  function ToOctet(b: Byte): octet
  {
    b.low + 16 * One(b.high.ta) + 32 * One(b.high.tb) + 64 * One(b.high.tc) + 128 * One(b.high.td)
  }

  /** The bit fields and the octet determine each other. */
  lemma OctetOfFields(b: Byte)
    ensures FromOctet(ToOctet(b)) == b
  {
    var q := One(b.high.ta) + 2 * One(b.high.tb) + 4 * One(b.high.tc) + 8 * One(b.high.td);
    assert ToOctet(b) == 16 * q + b.low;
    assert ToOctet(b) / 16 == q;
  }

  lemma FieldsOfOctet(x: octet)
    ensures ToOctet(FromOctet(x)) == x
  {
  }

  /** Interface characters: TAi, TBi and TCi, and a TDi that announces the protocol and the next ones. */
  datatype Block =
    | Last(ta: Option<Byte>, tb: Option<Byte>, tc: Option<Byte>)
    | Linked(ta: Option<Byte>, tb: Option<Byte>, tc: Option<Byte>, protocol: nibble, next: Block)

  datatype Atr = Atr(ts: Byte, block: Block, history: seq<Byte>, tck: Byte)

  function FlagsOf(b: Block): Flags { Flags(b.ta.Some?, b.tb.Some?, b.tc.Some?, b.Linked?) }

  /** How many of TAi, TBi and TCi are announced. */
  function Announced(f: Flags): nat { One(f.ta) + One(f.tb) + One(f.tc) }

  function BlockLength(b: Block): nat
  {
    Announced(FlagsOf(b)) + if b.Linked? then 1 + BlockLength(b.next) else 0
  }

  /** Character x, if there is one, is byte i of a. */
  predicate Shows(a: seq<Byte>, i: nat, x: Option<Byte>)
  {
    x.Some? ==> i < |a| && a[i] == x.value
  }

  /** The TD characters of b, from position `from` of a on, each behind the characters announced before it. */
  predicate ChainAt(a: seq<Byte>, from: nat, b: Block)
    decreases b
  {
    var pos := from + Announced(FlagsOf(b));
    && pos <= |a|
    && (b.Linked? ==> pos < |a| && a[pos] == Byte(b.protocol, FlagsOf(b.next)) && ChainAt(a, pos + 1, b.next))
  }

  /** The TA, TB and TC characters of b, in their order, in the places that leaves. */
  predicate CharactersAt(a: seq<Byte>, from: nat, b: Block)
    decreases b
  {
    && Shows(a, from, b.ta)
    && Shows(a, from + One(b.ta.Some?), b.tb)
    && Shows(a, from + One(b.ta.Some?) + One(b.tb.Some?), b.tc)
    && (b.Linked? ==> CharactersAt(a, from + Announced(FlagsOf(b)) + 1, b.next))
  }

  /** A check character is sent unless T=0 is the only protocol. */
  predicate NeedsTck(b: Block)
  {
    b.Linked? && (b.protocol != 0 || NeedsTck(b.next))
  }

  /** Where the historical characters start. */
  function HistoryAt(x: Atr): nat { 2 + BlockLength(x.block) }

  function AtrLength(x: Atr): nat { HistoryAt(x) + |x.history| + One(NeedsTck(x.block)) }

  /** The whole answer x stands at the start of a: TS, T0, the interface characters, the historical ones, TCK. */
  ghost predicate StartsWith(a: seq<Byte>, x: Atr)
  {
    && |x.history| < 16 && |a| >= AtrLength(x)
    && a[0] == x.ts && a[1] == Byte(|x.history|, FlagsOf(x.block))
    && ChainAt(a, 2, x.block) && CharactersAt(a, 2, x.block)
    && (forall i :: 0 <= i < |x.history| ==> a[HistoryAt(x) + i] == x.history[i])
    && (NeedsTck(x.block) ==> a[HistoryAt(x) + |x.history|] == x.tck)
  }

  // ---------------------------------------------------------------- the walk

  datatype Walked = Walked(pos: nat, tck: bool)

  function WithTck(r: Option<Walked>, tck: bool): Option<Walked>
  {
    match r
    case None => None
    case Some(w) => Some(Walked(w.pos, tck || w.tck))
  }

  /** The loop over the interface characters from position `from` on: where they end, and whether TCK is needed. */
  function Walk(a: seq<Byte>, from: nat, f: Flags): (r: Option<Walked>)
    ensures r.Some? ==> from <= r.value.pos <= |a|
    decreases |a| - from
  {
    var pos := from + Announced(f);
    if |a| < pos then None
    else if !f.td then Some(Walked(pos, false))
    else if |a| < pos + 1 then None
    else WithTck(Walk(a, pos + 1, a[pos].high), a[pos].low != 0)
  }

  /** vgsm_sim_atr_is_complete(). */
  predicate Complete(a: seq<Byte>)
  {
    |a| >= 2 &&
    match Walk(a, 2, a[1].high)
    case None => false
    case Some(w) => |a| >= w.pos + a[1].low + One(w.tck)
  }

  // ---------------------------------------------------------------- the walk follows the grammar

  lemma WalkLinked(a: seq<Byte>, from: nat, pos: nat, b: Block, end: nat)
    requires b.Linked? && pos == from + Announced(FlagsOf(b)) && pos < |a|
    requires a[pos] == Byte(b.protocol, FlagsOf(b.next))
    requires Walk(a, pos + 1, FlagsOf(b.next)) == Some(Walked(end, NeedsTck(b.next)))
    ensures Walk(a, from, FlagsOf(b)) == Some(Walked(end, NeedsTck(b)))
  {
  }

  lemma {:induction false} WalkReads(a: seq<Byte>, from: nat, b: Block)
    requires ChainAt(a, from, b)
    ensures Walk(a, from, FlagsOf(b)) == Some(Walked(from + BlockLength(b), NeedsTck(b)))
    decreases b
  {
    if b.Linked? {
      var pos := from + Announced(FlagsOf(b));
      assert pos < |a| && a[pos] == Byte(b.protocol, FlagsOf(b.next)) && ChainAt(a, pos + 1, b.next);
      WalkReads(a, pos + 1, b.next);
      WalkLinked(a, from, pos, b, pos + 1 + BlockLength(b.next));
    }
  }

  function Nth(a: seq<Byte>, present: bool, i: nat): (r: Option<Byte>)
    requires present ==> i < |a|
  {
    if present then Some(a[i]) else None
  }

  /** A walk that comes to an end has seen some block. */
  lemma {:induction false} WalkFinds(a: seq<Byte>, from: nat, f: Flags) returns (b: Block)
    requires Walk(a, from, f).Some?
    ensures FlagsOf(b) == f && ChainAt(a, from, b) && CharactersAt(a, from, b)
    decreases |a| - from
  {
    var ta, tb := Nth(a, f.ta, from), Nth(a, f.tb, from + One(f.ta));
    var tc := Nth(a, f.tc, from + One(f.ta) + One(f.tb));
    if f.td {
      var pos := from + Announced(f);
      var next := WalkFinds(a, pos + 1, a[pos].high);
      b := Linked(ta, tb, tc, a[pos].low, next);
    } else {
      b := Last(ta, tb, tc);
    }
  }

  /** What the walk makes of bytes that start with x. */
  lemma StartWalks(a: seq<Byte>, x: Atr)
    requires StartsWith(a, x)
    ensures a[1].low == |x.history|
    ensures Walk(a, 2, a[1].high) == Some(Walked(HistoryAt(x), NeedsTck(x.block)))
  {
    hide Walk, ChainAt;
    WalkReads(a, 2, x.block);
  }

  lemma CompleteIsEncoded(a: seq<Byte>) returns (x: Atr)
    requires Complete(a)
    ensures StartsWith(a, x)
  {
    var b := WalkFinds(a, 2, a[1].high);
    WalkReads(a, 2, b);
    x := Rebuilt(a, b, 2 + BlockLength(b), a[1].low);
  }

  lemma Rebuilt(a: seq<Byte>, b: Block, n: nat, k: nibble) returns (x: Atr)
    requires |a| >= n + k + One(NeedsTck(b)) && n == 2 + BlockLength(b)
    requires a[1] == Byte(k, FlagsOf(b)) && ChainAt(a, 2, b) && CharactersAt(a, 2, b)
    ensures StartsWith(a, x)
  {
    x := Atr(a[0], b, a[n..n + k], if NeedsTck(b) then a[n + k] else a[0]);
    assert HistoryAt(x) == n && |x.history| == k && AtrLength(x) == n + k + One(NeedsTck(b));
  }

  /** The bytes received are found complete exactly when a whole answer to reset stands at their start. */
  lemma CompleteExactly(a: seq<Byte>)
    ensures Complete(a) <==> exists x :: StartsWith(a, x)
  {
    if Complete(a) { var x := CompleteIsEncoded(a); }
    forall x | StartsWith(a, x) ensures Complete(a) { StartWalks(a, x); }
  }

  lemma {:induction false} ChainExtends(a: seq<Byte>, n: nat, from: nat, b: Block)
    requires n <= |a| && ChainAt(a[..n], from, b)
    ensures ChainAt(a, from, b)
    decreases b
  {
    if b.Linked? { ChainExtends(a, n, from + Announced(FlagsOf(b)) + 1, b.next); }
  }

  lemma {:induction false} CharactersExtend(a: seq<Byte>, n: nat, from: nat, b: Block)
    requires n <= |a| && CharactersAt(a[..n], from, b)
    ensures CharactersAt(a, from, b)
    decreases b
  {
    if b.Linked? { CharactersExtend(a, n, from + Announced(FlagsOf(b)) + 1, b.next); }
  }

  /** What stands at the start of some of the bytes stands at the start of them all. */
  lemma StartExtends(a: seq<Byte>, n: nat, x: Atr)
    requires n <= |a| && StartsWith(a[..n], x)
    ensures StartsWith(a, x)
  {
    ChainExtends(a, n, 2, x.block);
    CharactersExtend(a, n, 2, x.block);
    assert forall i :: 0 <= i < n ==> a[..n][i] == a[i];
  }

  /** More bytes do not make it incomplete. */
  lemma CompleteIsMonotone(a: seq<Byte>, more: seq<Byte>)
    requires Complete(a)
    ensures Complete(a + more)
  {
    var x := CompleteIsEncoded(a);
    assert (a + more)[..|a|] == a;
    StartExtends(a + more, |a|, x);
    StartWalks(a + more, x);
  }

  lemma {:induction false} ChainShrinks(a: seq<Byte>, n: nat, from: nat, b: Block)
    requires from + BlockLength(b) <= n <= |a| && ChainAt(a, from, b)
    ensures ChainAt(a[..n], from, b)
    decreases b
  {
    if b.Linked? { ChainShrinks(a, n, from + Announced(FlagsOf(b)) + 1, b.next); }
  }

  /** A complete answer is found so in every stretch of the bytes that holds it. */
  lemma LongEnough(a: seq<Byte>, x: Atr, n: nat)
    requires StartsWith(a, x) && AtrLength(x) <= n <= |a|
    ensures Complete(a[..n])
  {
    ChainShrinks(a, n, 2, x.block);
    WalkReads(a[..n], 2, x.block);
  }

  /** The bytes are found complete with the last byte of the answer they start with, and not before. */
  lemma CompleteAtLastByte(a: seq<Byte>, x: Atr, n: nat)
    requires StartsWith(a, x) && n <= |a|
    ensures Complete(a[..n]) <==> n >= AtrLength(x)
  {
    StartWalks(a, x);
    if n >= AtrLength(x) { LongEnough(a, x, n); }
    if Complete(a[..n]) {
      var y := CompleteIsEncoded(a[..n]);
      StartExtends(a, n, y);
      StartWalks(a, y);
    }
  }
}
