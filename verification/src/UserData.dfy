/**
 The user data of a short message: an optional concatenation header, fill bits up to a septet boundary, and the
 packed text (section 9.2.3.24 of 3GPP TS 23.040), as sms_submit.c lays it out and sms_deliver.c reads it.
 */
module UserData {
  import opened Bits
  import opened GsmCharset
  import opened SevenBit
  import opened Text

  const MAX_SEPTETS := 160
  const IEI_CONCATENATED := 0

  datatype Concat = Concat(refnum: octet, maxmsg: octet, seqnum: octet)

  /** The header of sms_submit.c: its own length less one, then one information element of three octets. */
  function Header(c: Option<Concat>): (r: seq<octet>)
    ensures |r| == if c.Some? then 6 else 0
  {
    match c
    case None => []
    case Some(x) => [5, IEI_CONCATENATED, 3, x.refnum, x.maxmsg, x.seqnum]
  }

  function Zeros(n: nat): (r: seq<octet>)
    ensures |r| == n && forall i :: 0 <= i < n ==> r[i] == 0
  {
    seq(n, _ => 0)
  }

  /** Octets of header and text together. */
  function DataOctets(h: nat, n: nat): (r: nat)
    ensures r >= h
  {
    SeptetsToOctets(OctetsToSeptets(h) + n)
  }

  /** One octet more is room for the packing loop. */
  lemma DataRoom(h: nat, n: nat)
    ensures Room(DataOctets(h, n) + 1, 0, OctetsToSeptets(h), n)
  {
    if n > 0 { OutPosValue(OctetsToSeptets(h) + n - 1); }
  }

  /** The septets cs packed behind the header h. */
  function DataOf(h: seq<octet>, cs: seq<octet>): (r: seq<octet>)
    ensures |r| == DataOctets(|h|, |cs|)
  {
    var n := DataOctets(|h|, |cs|);
    DataRoom(|h|, |cs|);
    Pack(h + Zeros(n + 1 - |h|), 0, OctetsToSeptets(|h|), cs)[..n]
  }

  lemma ZeroStream(h: seq<octet>, k: nat, p: int)
    ensures Stream(h + Zeros(k), p) == Stream(h, p)
  {
    if 8 * |h| <= p < 8 * (|h| + k) {
      NoBits(p % 8);
      assert (h + Zeros(k))[p / 8] == 0;
    } else if 0 <= p < 8 * |h| {
      assert (h + Zeros(k))[p / 8] == h[p / 8];
    }
  }

  lemma TakeStream(b: seq<octet>, n: nat, p: int)
    requires n <= |b| && p < 8 * n
    ensures Stream(b[..n], p) == Stream(b, p)
  {
  }

  /** Bit by bit: the header, then from the next septet boundary on the text. */
  lemma DataBits(h: seq<octet>, cs: seq<octet>, p: int)
    requires AreSeptets(cs) && p < 8 * DataOctets(|h|, |cs|)
    ensures Stream(DataOf(h, cs), p) == (Stream(h, p) || SeptetStream(cs, p - 7 * OctetsToSeptets(|h|)))
  {
    var n, o := DataOctets(|h|, |cs|), OctetsToSeptets(|h|);
    var b := h + Zeros(n + 1 - |h|);
    DataRoom(|h|, |cs|);
    TakeStream(Pack(b, 0, o, cs), n, p);
    PackBits(b, 0, o, cs, p - 7 * o);
    ZeroStream(h, n + 1 - |h|, p);
  }

  /** The header's octets are untouched by the packing. */
  lemma HeaderKept(h: seq<octet>, cs: seq<octet>)
    requires AreSeptets(cs)
    ensures DataOf(h, cs)[..|h|] == h
  {
    var n, o := DataOctets(|h|, |cs|), OctetsToSeptets(|h|);
    var b := h + Zeros(n + 1 - |h|);
    DataRoom(|h|, |cs|);
    forall j | 0 <= j < |h| ensures DataOf(h, cs)[j] == h[j] {
      PackElsewhere(b, 0, o, cs, j);
    }
  }

  lemma HeaderClear(h: seq<octet>, k: nat, n: nat)
    ensures Clear(h + Zeros(k), 0, OctetsToSeptets(|h|), n)
  {
    var o := OctetsToSeptets(|h|);
    forall p | 7 * o <= p < 7 * (o + n) ensures !Stream(h + Zeros(k), p) {
      ZeroStream(h, k, p);
    }
  }

  lemma UnpackTaken(b: seq<octet>, n: nat, o: nat, k: nat)
    requires n <= |b| && SeptetsToOctets(o + k) <= n
    ensures Unpack(b[..n], 0, o, k) == Unpack(b, 0, o, k)
  {
    assert b[..n] + b[n..] == b;
    UnpackPrefix(b[..n], b[n..], 0, o, k);
  }

  lemma UnpackPackTaken(b: seq<octet>, o: nat, cs: seq<octet>, n: nat)
    requires Room(|b|, 0, o, |cs|) && AreSeptets(cs) && Clear(b, 0, o, |cs|)
    requires SeptetsToOctets(o + |cs|) <= n <= |b|
    ensures Unpack(Pack(b, 0, o, cs)[..n], 0, o, |cs|) == cs
  {
    UnpackPack(b, 0, o, cs);
    UnpackTaken(Pack(b, 0, o, cs), n, o, |cs|);
  }

  /** The septets behind the header are read back. */
  lemma TextKept(h: seq<octet>, cs: seq<octet>)
    requires AreSeptets(cs)
    ensures Unpack(DataOf(h, cs), 0, OctetsToSeptets(|h|), |cs|) == cs
  {
    hide Pack, Unpack, Room, SeptetsToOctets, AreSeptets, Clear;
    var n, o := DataOctets(|h|, |cs|), OctetsToSeptets(|h|);
    DataRoom(|h|, |cs|);
    HeaderClear(h, n + 1 - |h|, |cs|);
    UnpackPackTaken(h + Zeros(n + 1 - |h|), o, cs, n);
  }

  // ---------------------------------------------------------------- reading it

  /** The header loop of sms_deliver.c from `at` on; None when an octet past the end would be read. */
  function HeaderElements(data: seq<octet>, udhl: nat, at: nat, c: Concat): Option<Concat>
    decreases udhl - at
  {
    if at >= udhl then Some(c)
    else if at + 2 > |data| then None
    else
      var id, len := data[at], data[at + 1];
      if id == IEI_CONCATENATED && len >= 3 then
        if at + 5 > |data| then None
        else HeaderElements(data, udhl, at + 2 + len, Concat(data[at + 2], data[at + 3], data[at + 4]))
      else HeaderElements(data, udhl, at + 2 + len, c)
  }

  /** An information element: its identifier, and what follows the octet for its length. */
  datatype Element = Element(id: octet, body: seq<octet>)

  ghost predicate AreElements(es: seq<Element>)
  {
    forall k :: 0 <= k < |es| ==> |es[k].body| < 256
  }

  function Elements(es: seq<Element>): seq<octet>
    requires AreElements(es)
  {
    if es == [] then [] else [es[0].id, |es[0].body|] + es[0].body + Elements(es[1..])
  }

  predicate IsConcat(e: Element) { e.id == 0 && |e.body| >= 3 }

  /** The last element with the fields of a concatenation has the say. */
  function LastConcat(es: seq<Element>, c: Concat): Concat
  {
    if es == [] then c
    else
      var e := es[|es| - 1];
      if IsConcat(e) then Concat(e.body[0], e.body[1], e.body[2]) else LastConcat(es[..|es| - 1], c)
  }

  function ConcatAfter(e: Element, c: Concat): Concat
  {
    if IsConcat(e) then Concat(e.body[0], e.body[1], e.body[2]) else c
  }

  lemma {:induction false} LastOfMore(e: Element, es: seq<Element>, c: Concat)
    ensures LastConcat([e] + es, c) == LastConcat(es, ConcatAfter(e, c))
    decreases |es|
  {
    var all := [e] + es;
    if es == [] {
      assert all[..0] == [];
    } else {
      assert all[..|all| - 1] == [e] + es[..|es| - 1];
      LastOfMore(e, es[..|es| - 1], c);
    }
  }

  lemma ElementAt(data: seq<octet>, udhl: nat, at: nat, e: Element, c: Concat)
    requires |e.body| < 256 && at < udhl && at + 2 + |e.body| <= |data|
    requires data[at] == e.id && data[at + 1] == |e.body| && data[at + 2..at + 2 + |e.body|] == e.body
    ensures HeaderElements(data, udhl, at, c) == HeaderElements(data, udhl, at + 2 + |e.body|, ConcatAfter(e, c))
  {
    assert forall i :: 0 <= i < |e.body| ==> data[at + 2 + i] == e.body[i];
  }

  lemma {:induction false} ElementsFrom(data: seq<octet>, udhl: nat, at: nat, es: seq<Element>, c: Concat)
    requires AreElements(es) && at + |Elements(es)| == udhl + 1 <= |data| && data[at..udhl + 1] == Elements(es)
    requires es == [] ==> at >= udhl
    ensures HeaderElements(data, udhl, at, c) == Some(LastConcat(es, c))
    decreases |es|
  {
    hide HeaderElements;
    if es == [] {
      HeaderOver(data, udhl, at, c);
    } else {
      var e, x := es[0], Elements(es);
      var next := at + 2 + |e.body|;
      assert x[2..2 + |e.body|] == e.body && x[2 + |e.body|..] == Elements(es[1..]);
      FirstElement(data, at, next, udhl + 1);
      ElementAt(data, udhl, at, e, c);
      ElementsFrom(data, udhl, next, es[1..], ConcatAfter(e, c));
      assert [e] + es[1..] == es;
      LastOfMore(e, es[1..], c);
    }
  }

  lemma FirstElement(data: seq<octet>, at: nat, next: nat, end: nat)
    requires at + 2 <= next <= end <= |data|
    ensures var x := data[at..end];
      && x[0] == data[at] && x[1] == data[at + 1]
      && x[2..next - at] == data[at + 2..next] && x[next - at..] == data[next..end]
  {
    var body, rest := data[at..end][2..next - at], data[at..end][next - at..];
    assert forall i :: 0 <= i < |body| ==> body[i] == data[at + 2..next][i];
    assert forall i :: 0 <= i < |rest| ==> rest[i] == data[next..end][i];
  }

  lemma HeaderOver(data: seq<octet>, udhl: nat, at: nat, c: Concat)
    requires at >= udhl
    ensures HeaderElements(data, udhl, at, c) == Some(c)
  {
  }

  /** A header of any elements: the others are skipped by their lengths, and the last concatenation is what is read. */
  lemma ElementsRead(es: seq<Element>, more: seq<octet>)
    requires AreElements(es) && |Elements(es)| < 256
    ensures ReadHeader(true, [|Elements(es)|] + Elements(es) + more) == Some(LastConcat(es, NO_CONCAT))
  {
    var x := Elements(es);
    var data := [|x|] + x + more;
    assert data[1..|x| + 1] == x;
    ElementsFrom(data, |x|, 1, es, NO_CONCAT);
  }

  datatype Content = Content(concat: Concat, text: seq<int>)

  const NO_CONCAT := Concat(0, 0, 0)

  /** The concatenation fields when a header is announced; None as above. */
  function ReadHeader(udhi: bool, data: seq<octet>): Option<Concat>
  {
    if !udhi then Some(NO_CONCAT)
    else if data == [] then None
    else HeaderElements(data, data[0], 1, NO_CONCAT)
  }

  /** The septets that the header takes. */
  function SkipSeptets(udhi: bool, data: seq<octet>): nat
    requires udhi ==> data != []
  {
    if udhi then OctetsToSeptets((data[0] as nat) + 1) else 0
  }

  /** The n septets of text behind the header; None as above. */
  function ReadText(t: seq<Entry>, skip: nat, n: nat, data: seq<octet>): Option<seq<int>>
  {
    if n > 0 && SeptetsToOctets(skip + n) > |data| then None
    else Some(DecodeSeptets(t, Unpack(data, 0, skip, n)))
  }

  lemma HeaderReadBack(c: Option<Concat>, d: seq<octet>)
    requires |Header(c)| <= |d| && d[..|Header(c)|] == Header(c)
    ensures c.Some? ==> d != []
    ensures ReadHeader(c.Some?, d) == Some(c.GetOr(NO_CONCAT))
    ensures SkipSeptets(c.Some?, d) == OctetsToSeptets(|Header(c)|)
  {
    if c.Some? {
      var h := Header(c);
      assert d[0] == h[0] && d[1] == h[1] && d[2] == h[2] && d[3] == h[3] && d[4] == h[4] && d[5] == h[5];
      assert HeaderElements(d, 5, 1, NO_CONCAT) == HeaderElements(d, 5, 6, c.value);
    }
  }

  lemma TextReadBack(t: seq<Entry>, h: seq<octet>, cs: seq<octet>, more: seq<octet>)
    requires AreSeptets(cs)
    ensures ReadText(t, OctetsToSeptets(|h|), |cs|, DataOf(h, cs) + more) == Some(DecodeSeptets(t, cs))
  {
    var skip, d := OctetsToSeptets(|h|), DataOf(h, cs);
    if cs != [] {
      TextKept(h, cs);
      UnpackPrefix(d, more, 0, skip, |cs|);
    } else {
      assert Unpack(d + more, 0, skip, 0) == cs;
    }
  }

  /** What is laid out is read back, septet for septet, whatever follows it. */
  lemma DataRoundTrip(t: seq<Entry>, c: Option<Concat>, cs: seq<octet>, more: seq<octet>)
    requires AreSeptets(cs)
    ensures var d := DataOf(Header(c), cs) + more;
      && (c.Some? ==> d != [])
      && ReadHeader(c.Some?, d) == Some(c.GetOr(NO_CONCAT))
      && ReadText(t, SkipSeptets(c.Some?, d), |cs|, d) == Some(DecodeSeptets(t, cs))
  {
    var h, d := Header(c), DataOf(Header(c), cs);
    HeaderKept(h, cs);
    assert (d + more)[..|h|] == d[..|h|];
    HeaderReadBack(c, d + more);
    TextReadBack(t, h, cs, more);
  }
}
