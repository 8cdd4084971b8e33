/** chan_vgsm/sms_submit.c: the SMS-SUBMIT PDU (section 9.2.2.2 of 3GPP TS 23.040) built in a fixed buffer. */
module SmsSubmit {
  import opened Bits
  import opened GsmCharset
  import opened SevenBit
  import opened SevenBitBuffers
  import opened UserData
  import opened Bcd
  import opened Text
  import opened Validity

  const DIGITS_SIZE := 32
  const MAX_DEST_DIGITS := 22

  datatype Number = Number(digits: string, plan: nat, ton: nat)

  datatype Message = Message(
    smsc: Number, dest: Number,
    rejectDuplicates: bool, replyPath: bool, statusReport: bool,
    reference: octet, messageClass: nat, validityPeriod: int,
    refnum: octet, maxmsg: octet, seqnum: octet,
    text: seq<int>)

  // ---------------------------------------------------------------- the layout

  function TypeOfAddress(n: Number): octet { 128 + 16 * (n.ton % 8) + n.plan % 16 }

  function Flag(b: bool, weight: nat): nat { if b then weight else 0 }

  function FirstOctet(m: Message): octet
  {
    1 + Flag(m.rejectDuplicates, 4) + 16 + Flag(m.statusReport, 32) + Flag(ConcatOf(m).Some?, 64)
      + Flag(m.replyPath, 128)
  }

  lemma BitsOfSum(a: nat, b: nat, c: nat, d: nat, x: nat)
    requires a < 2 && b < 2 && c < 2 && d < 2 && x == 17 + 4 * a + 32 * b + 64 * c + 128 * d
    ensures x % 4 == 1 && x / 4 % 2 == a && x / 8 % 4 == 2 && x / 32 % 2 == b && x / 64 % 2 == c && x / 128 % 2 == d
  {
    assert x / 4 == 4 + a + 8 * b + 16 * c + 32 * d;
    assert x / 8 == 2 + 4 * b + 8 * c + 16 * d && x / 32 == b + 2 * c + 4 * d && x / 64 == c + 2 * d;
  }

  /** Read bit by bit (section 9.2.3 of 3GPP TS 23.040): SUBMIT, duplicates, relative validity period, status report,
      user data header, reply path. */
  lemma FirstOctetFields(m: Message)
    ensures var x := FirstOctet(m);
      && x % 4 == 1 && (x / 4 % 2 == 1 <==> m.rejectDuplicates) && x / 8 % 4 == 2
      && (x / 32 % 2 == 1 <==> m.statusReport) && (x / 64 % 2 == 1 <==> m.maxmsg > 1)
      && (x / 128 % 2 == 1 <==> m.replyPath)
  {
    BitsOfSum(Flag(m.rejectDuplicates, 1), Flag(m.statusReport, 1), Flag(ConcatOf(m).Some?, 1), Flag(m.replyPath, 1),
              FirstOctet(m));
  }

  /** Extension bit, type of number, numbering plan. */
  lemma TypeOfAddressFields(n: Number)
    ensures var x := TypeOfAddress(n); x / 128 == 1 && x / 16 % 8 == n.ton % 8 && x % 16 == n.plan % 16
  {
  }

  function CodingScheme(m: Message): octet { 16 + m.messageClass % 4 }

  /** A header is sent with the parts of a longer message. */
  function ConcatOf(m: Message): Option<Concat>
  {
    if m.maxmsg > 1 then Some(Concat(m.refnum, m.maxmsg, m.seqnum)) else None
  }

  function HeaderSeptets(m: Message): (r: nat)
    ensures r <= 7
  {
    OctetsToSeptets(|Header(ConcatOf(m))|)
  }

  function Octets(n: Number): nat { (|n.digits| + 1) / 2 }

  function SmscPart(n: Number): (r: seq<octet>)
    requires |n.digits| < DIGITS_SIZE
    ensures |r| == 2 + Octets(n)
  {
    [Octets(n) + 1, TypeOfAddress(n)] + SemiOctets(n.digits)
  }

  function TpPart(m: Message): (r: seq<octet>)
    requires |m.dest.digits| < DIGITS_SIZE
    ensures |r| == 7 + Octets(m.dest)
  {
    [FirstOctet(m), m.reference, |m.dest.digits|, TypeOfAddress(m.dest)] + SemiOctets(m.dest.digits)
      + [0, CodingScheme(m), PeriodOctet(m.validityPeriod)]
  }

  ghost predicate Sendable(m: Message)
  {
    |m.smsc.digits| < DIGITS_SIZE && |m.dest.digits| < DIGITS_SIZE
  }

  /** The whole PDU, for a text of septets cs. */
  function Pdu(m: Message, cs: seq<octet>): seq<octet>
    requires Sendable(m) && HeaderSeptets(m) + |cs| <= MAX_SEPTETS
  {
    SmscPart(m.smsc) + TpPart(m) + [HeaderSeptets(m) + |cs|] + DataOf(Header(ConcatOf(m)), cs)
  }

  lemma Parts(p: seq<octet>, smsc: seq<octet>, x: octet, y: octet, head: seq<octet>, dest: seq<octet>, last: seq<octet>,
              udl: octet, data: seq<octet>)
    requires |head| == 4 && |last| == 3
    requires p == [x, y] + smsc + (head + dest + last) + [udl] + data
    ensures var at := 2 + |smsc|; var next := at + 4 + |dest|;
      && |p| == next + 4 + |data| && p[0] == x && p[1] == y && p[2..at] == smsc && p[at..at + 4] == head
      && p[at + 4..next] == dest && p[next..next + 4] == last + [udl] && p[next + 4..] == data
  {
    assert p == [x, y] + (smsc + (head + (dest + (last + ([udl] + data)))));
  }

  /** Octet by octet (section 9.2.2.2 of 3GPP TS 23.040): the SMSC address behind its length, flags, reference, the
      destination behind the number of its digits, protocol, coding scheme, validity, length of the user data, and the
      header of a part of a longer message. */
  lemma PduOctets(m: Message, cs: seq<octet>, at: nat, next: nat)
    requires Sendable(m) && HeaderSeptets(m) + |cs| <= MAX_SEPTETS && AreSeptets(cs)
    requires at == 2 + (|m.smsc.digits| + 1) / 2 && next == at + 4 + (|m.dest.digits| + 1) / 2
    ensures var p := Pdu(m, cs);
      && next + 4 <= |p|
      && p[0] == at - 1 && p[1] == TypeOfAddress(m.smsc) && p[2..at] == SemiOctets(m.smsc.digits)
      && p[at..at + 4] == [FirstOctet(m), m.reference, |m.dest.digits|, TypeOfAddress(m.dest)]
      && p[at + 4..next] == SemiOctets(m.dest.digits)
      && p[next..next + 4]
         == [0, CodingScheme(m), PeriodOctet(m.validityPeriod), (if m.maxmsg > 1 then 7 else 0) + |cs|]
      && (m.maxmsg > 1 ==>
            next + 10 <= |p| && p[next + 4..next + 10] == [5, 0, 3, m.refnum, m.maxmsg, m.seqnum])
  {
    hide DataOf, SemiOctets, FirstOctet, TypeOfAddress, CodingScheme, PeriodOctet, AreSeptets;
    var h := Header(ConcatOf(m));
    var head := [FirstOctet(m), m.reference, |m.dest.digits|, TypeOfAddress(m.dest)];
    Parts(Pdu(m, cs), SemiOctets(m.smsc.digits), Octets(m.smsc) + 1, TypeOfAddress(m.smsc), head,
          SemiOctets(m.dest.digits), [0, CodingScheme(m), PeriodOctet(m.validityPeriod)], HeaderSeptets(m) + |cs|,
          DataOf(h, cs));
    HeaderThere(Pdu(m, cs), next + 4, h, cs);
  }

  lemma HeaderThere(p: seq<octet>, at: nat, h: seq<octet>, cs: seq<octet>)
    requires AreSeptets(cs) && at <= |p| && p[at..] == DataOf(h, cs)
    ensures at + |h| <= |p| && p[at..at + |h|] == h
  {
    hide DataOf;
    HeaderKept(h, cs);
    assert p[at..at + |h|] == p[at..][..|h|];
  }

  function DataStart(m: Message): nat { 2 + Octets(m.smsc) + 7 + Octets(m.dest) + 1 }

  function MaxLen(m: Message): nat { 2 + Octets(m.smsc) + 160 }

  /** All octets touched for n septets of user data, the one just past the last included, are in the buffer. */
  predicate Fits(m: Message, n: nat) { Room(MaxLen(m), DataStart(m), 0, n) }

  /** The buffer is large enough for any number of septets exactly when the destination has at most 22 digits
      (section 9.1.2.5 of 3GPP TS 23.040 allows 20). */
  lemma RoomExact(m: Message)
    ensures (forall n :: 0 <= n <= MAX_SEPTETS ==> Fits(m, n)) <==> |m.dest.digits| <= MAX_DEST_DIGITS
  {
    assert OutPos(159) == 140;
    if |m.dest.digits| <= MAX_DEST_DIGITS {
      forall n | 0 <= n <= MAX_SEPTETS ensures Fits(m, n) {
        if n > 0 { OutPosMonotone(n - 1, 159); }
      }
    } else {
      assert !Fits(m, MAX_SEPTETS);
    }
  }

  /** Every octet that packing the text of m touches, the one just past the last included, is in the buffer. */
  predicate InBuffer(t: seq<Entry>, m: Message)
  {
    AllTranslatable(t, m.text) ==>
      Room(MaxLen(m), DataStart(m), HeaderSeptets(m),
           |EncodeFrom(t, m.text, MAX_SEPTETS - HeaderSeptets(m), 0).septets|)
  }

  lemma ShortDestinationFits(t: seq<Entry>, m: Message)
    requires IsGsmTable(t) && |m.dest.digits| <= MAX_DEST_DIGITS
    ensures InBuffer(t, m)
  {
    var e := EncodeFrom(t, m.text, MAX_SEPTETS - HeaderSeptets(m), 0);
    EncodeExact(t, m.text, MAX_SEPTETS - HeaderSeptets(m), 0);
    RoomExact(m);
    var n := |e.septets|;
    if n > 0 { assert Fits(m, HeaderSeptets(m) + n); }
  }

  /** Commercial ats that fill the message: packing them touches the octet for 160 septets before they are refused. */
  lemma LongDestinationOverruns(m: Message)
    requires |m.dest.digits| > MAX_DEST_DIGITS && m.text == Repeated(0x40, MAX_SEPTETS - HeaderSeptets(m))
    ensures AllTranslatable(Table(), m.text) && !InBuffer(Table(), m)
  {
    var n: nat := MAX_SEPTETS - HeaderSeptets(m);
    AtSignIsBasic();
    FullTextWritten(Table(), 0x40, n, 0);
    assert OutPos(159) == 140;
  }

  /** So every text stays inside the buffer exactly when the destination has at most 22 digits. */
  lemma TextsFitExactly(m: Message)
    ensures (forall text :: InBuffer(Table(), m.(text := text))) <==> |m.dest.digits| <= MAX_DEST_DIGITS
  {
    if |m.dest.digits| <= MAX_DEST_DIGITS {
      forall text ensures InBuffer(Table(), m.(text := text)) { ShortDestinationFits(Table(), m.(text := text)); }
    } else {
      var text := Repeated(0x40, MAX_SEPTETS - HeaderSeptets(m));
      LongDestinationOverruns(m.(text := text));
      assert !InBuffer(Table(), m.(text := text));
    }
  }

  // ---------------------------------------------------------------- packing inside the PDU

  /** b holds the header h at `at` and zeros behind it. */
  ghost predicate HeaderAt(b: seq<octet>, at: nat, h: seq<octet>)
  {
    at + |h| <= |b| && b[at..at + |h|] == h && forall j :: at + |h| <= j < |b| ==> b[j] == 0
  }

  lemma RegionStream(b: seq<octet>, at: nat, n: nat, p: int)
    requires at + n <= |b| && 0 <= p < 8 * n
    ensures Stream(b[at..at + n], p) == Stream(b, 8 * at + p)
  {
    assert (8 * at + p) / 8 == at + p / 8 && (8 * at + p) % 8 == p % 8;
  }

  lemma HeaderStream(b: seq<octet>, at: nat, h: seq<octet>, p: nat)
    requires HeaderAt(b, at, h)
    ensures Stream(b, 8 * at + p) == Stream(h, p)
  {
    if p < 8 * |h| {
      RegionStream(b, at, |h|, p);
    } else if 8 * at + p < 8 * |b| {
      assert b[(8 * at + p) / 8] == 0;
      NoBits((8 * at + p) % 8);
    }
  }

  lemma PackInsideBit(b: seq<octet>, at: nat, h: seq<octet>, cs: seq<octet>, p: nat)
    requires HeaderAt(b, at, h) && AreSeptets(cs) && p < 8 * DataOctets(|h|, |cs|)
    requires Room(|b|, at, OctetsToSeptets(|h|), |cs|) && at + DataOctets(|h|, |cs|) <= |b|
    ensures Stream(Pack(b, at, OctetsToSeptets(|h|), cs), 8 * at + p) == Stream(DataOf(h, cs), p)
  {
    var o := OctetsToSeptets(|h|);
    DataBits(h, cs, p);
    PackBits(b, at, o, cs, p - 7 * o);
    assert 8 * at + 7 * o + (p - 7 * o) == 8 * at + p;
    HeaderStream(b, at, h, p);
  }

  /** Packing inside the PDU leaves what precedes the user data alone and makes the user data. */
  lemma PackInside(b: seq<octet>, at: nat, h: seq<octet>, cs: seq<octet>)
    requires HeaderAt(b, at, h) && AreSeptets(cs)
    requires Room(|b|, at, OctetsToSeptets(|h|), |cs|) && at + DataOctets(|h|, |cs|) <= |b|
    ensures Pack(b, at, OctetsToSeptets(|h|), cs)[..at] == b[..at]
    ensures Pack(b, at, OctetsToSeptets(|h|), cs)[at..at + DataOctets(|h|, |cs|)] == DataOf(h, cs)
  {
    var o, n := OctetsToSeptets(|h|), DataOctets(|h|, |cs|);
    var r := Pack(b, at, o, cs);
    forall j | 0 <= j < at ensures r[j] == b[j] { PackElsewhere(b, at, o, cs, j); }
    var d := r[at..at + n];
    forall p ensures Stream(d, p) == Stream(DataOf(h, cs), p) {
      if 0 <= p < 8 * n {
        RegionStream(r, at, n, p);
        PackInsideBit(b, at, h, cs, p);
      }
    }
    SameStream(d, DataOf(h, cs));
  }

  // ---------------------------------------------------------------- the object

  /** Overrun is a write past the buffer, which the code does not guard against. */
  datatype Outcome = Done | NoSpace | Ucs2 | Overrun

  datatype Alphabet = Default | Ucs2Alphabet

  /** struct vgsm_sms_submit and vgsm_sms_submit_prepare(). */
  class Submit {
    const m: Message
    var alphabet: Alphabet
    var headerIndicator: bool
    var pdu: array?<octet>
    var pduLen: nat
    var pduTpLen: nat

    constructor (m: Message)
      ensures this.m == m && pdu == null
    {
      this.m := m;
      alphabet, headerIndicator := Default, false;
      pdu, pduLen, pduTpLen := null, 0, 0;
    }

    /** The loop that picks the alphabet. */
    method PickAlphabet(t: seq<Entry>)
      modifies `alphabet
      ensures alphabet == if AllTranslatable(t, m.text) then Default else Ucs2Alphabet
    {
      alphabet := Default;
      var i := 0;
      while i < |m.text|
        invariant i <= |m.text| && alphabet == Default
        invariant forall j :: 0 <= j < i ==> IsTranslatable(t, m.text[j])
      {
        var n, _, _ := WideToGsm(t, m.text[i]);
        if n == 0 {
          alphabet := Ucs2Alphabet;
          return;
        }
        i := i + 1;
      }
    }

    /** The text behind the header h already at `at`: its septets, or -ENOSPC; e is what encoding it gives. */
    method PutText(t: seq<Entry>, a: array<octet>, at: nat, max: int, o: nat, ghost h: seq<octet>, ghost e: Encoded)
      returns (used: int)
      requires Underway(t, m.text, 0, max, 0, e) && AreSeptets(e.septets)
      requires o == OctetsToSeptets(|h|) && HeaderAt(a[..], at, h)
      requires Room(a.Length, at, o, |e.septets|) && at + DataOctets(|h|, |e.septets|) <= a.Length
      modifies a
      ensures used == if e.ok then |e.septets| else -ENOSPC
      ensures a[..at] == old(a[..at])
      ensures a[at..at + DataOctets(|h|, |e.septets|)] == DataOf(h, e.septets)
    {
      ghost var before := a[..];
      used := EncodeLoop(t, m.text, a, at, max, o, before, e);
      PackInside(before, at, h, e.septets);
    }

    /** Builds the PDU; a text outside the default alphabet is left to the UCS-2 path. */
    method Prepare(t: seq<Entry>) returns (r: Outcome)
      requires IsGsmTable(t) && Sendable(m) && pdu == null
      modifies this
      ensures r == (if !AllTranslatable(t, m.text) then Ucs2
                    else if !InBuffer(t, m) then Overrun
                    else if EncodeFrom(t, m.text, MAX_SEPTETS - HeaderSeptets(m), 0).ok then Done else NoSpace)
      ensures r == Done ==> Built(TextSeptets(t, m.text))
      ensures r != Done ==> pdu == null
    {
      PickAlphabet(t);
      if alphabet == Ucs2Alphabet { return Ucs2; }
      if !InBuffer(t, m) { return Overrun; }
      EncodeBounds(t, MAX_SEPTETS - HeaderSeptets(m));
      r := Build(t, EncodeFrom(t, m.text, MAX_SEPTETS - HeaderSeptets(m), 0));
    }

    /** The rest of the function, for a text whose encoding is e. */
    method Build(t: seq<Entry>, ghost e: Encoded) returns (r: Outcome)
      requires Sendable(m) && pdu == null && Manageable(e)
      requires Underway(t, m.text, 0, MAX_SEPTETS - HeaderSeptets(m), 0, e)
      modifies this
      ensures r == if e.ok then Done else NoSpace
      ensures if e.ok then Built(e.septets) else pdu == null
    {
      if m.maxmsg > 1 { headerIndicator := true; }
      var a := new octet[MaxLen(m)](_ => 0);
      var preTpLen, len := Fill(t, a, e);
      if len < 0 { return NoSpace; }
      assert a[..len][0] == Octets(m.smsc) + 1;
      pdu, pduTpLen, pduLen := a, len - preTpLen, len;
      return Done;
    }

    /** The octet between the front part and the data. */
    method PutLength(a: array<octet>, at: nat, n: nat, x: octet, ghost front: seq<octet>, ghost data: seq<octet>)
      requires at + 1 + n <= a.Length && a[..at] == front && a[at + 1..at + 1 + n] == data
      modifies a
      ensures a[..at + 1 + n] == front + [x] + data
    {
      a[at] := x;
      assert a[at + 1..at + 1 + n] == data;
      assert a[..at + 1 + n] == a[..at] + [a[at]] + a[at + 1..at + 1 + n];
    }

    /** Fills the fresh buffer a: where the part after the SMSC address starts, and the length or -ENOSPC. */
    method Fill(t: seq<Entry>, a: array<octet>, ghost e: Encoded) returns (preTpLen: nat, len: int)
      requires Sendable(m) && Manageable(e)
      requires Underway(t, m.text, 0, MAX_SEPTETS - HeaderSeptets(m), 0, e)
      requires a.Length == MaxLen(m) && forall j :: 0 <= j < a.Length ==> a[j] == 0
      modifies a
      ensures preTpLen == 2 + Octets(m.smsc)
      ensures !e.ok ==> len == -ENOSPC
      ensures e.ok ==> preTpLen <= len <= a.Length && a[..len] == Pdu(m, e.septets)
    {
      var pos;
      preTpLen, pos := PutFront(a);
      ghost var front := SmscPart(m.smsc) + TpPart(m);
      len := PutData(t, a, pos, front, Header(ConcatOf(m)), e);
    }

    /** The user data at `at`, behind the octet for its length: its septets, or -ENOSPC. */
    method PutUserData(t: seq<Entry>, a: array<octet>, at: nat, ghost h: seq<octet>, ghost e: Encoded)
      returns (septets: int)
      requires h == Header(ConcatOf(m)) && HeaderSeptets(m) == OctetsToSeptets(|h|)
      requires Underway(t, m.text, 0, MAX_SEPTETS - HeaderSeptets(m), 0, e) && AreSeptets(e.septets)
      requires at + 6 <= a.Length && forall j :: at <= j < a.Length ==> a[j] == 0
      requires Room(a.Length, at, HeaderSeptets(m), |e.septets|)
      requires at + DataOctets(|h|, |e.septets|) <= a.Length
      modifies a
      ensures septets == if e.ok then HeaderSeptets(m) + |e.septets| else -ENOSPC
      ensures a[..at] == old(a[..at])
      ensures a[at..at + DataOctets(|h|, |e.septets|)] == DataOf(h, e.septets)
    {
      ghost var front := a[..at];
      var headerSeptets := PutHeader(a, at);
      assert a[..at] == front;
      var used := PutText(t, a, at, MAX_SEPTETS - headerSeptets, headerSeptets, h, e);
      septets := if used < 0 then used else headerSeptets + used;
    }

    /** The user data length at `pos` and the user data behind it; the length of it all, or -ENOSPC. */
    method PutData(t: seq<Entry>, a: array<octet>, pos: nat, ghost front: seq<octet>, ghost h: seq<octet>,
                   ghost e: Encoded)
      returns (len: int)
      requires h == Header(ConcatOf(m)) && HeaderSeptets(m) == OctetsToSeptets(|h|)
      requires Underway(t, m.text, 0, MAX_SEPTETS - HeaderSeptets(m), 0, e) && AreSeptets(e.septets)
      requires HeaderSeptets(m) + |e.septets| <= MAX_SEPTETS && pos + 7 <= a.Length
      requires Room(a.Length, pos + 1, HeaderSeptets(m), |e.septets|)
      requires pos + 1 + DataOctets(|h|, |e.septets|) <= a.Length
      requires a[..pos] == front && forall j :: pos <= j < a.Length ==> a[j] == 0
      modifies a
      ensures !e.ok ==> len == -ENOSPC
      ensures e.ok ==> len == pos + 1 + DataOctets(|h|, |e.septets|)
      ensures e.ok ==> a[..len] == front + [HeaderSeptets(m) + |e.septets|] + DataOf(h, e.septets)
    {
      ghost var before := a[..pos + 1];
      var septets := PutUserData(t, a, pos + 1, h, e);
      if septets < 0 { return -ENOSPC; }
      assert a[..pos] == front by { assert a[..pos] == before[..pos]; }
      len := pos + 1 + SeptetsToOctets(septets);
      PutLength(a, pos, SeptetsToOctets(septets), septets, front, DataOf(h, e.septets));
    }

    /** What the encoding must satisfy for the buffer to hold it. */
    ghost predicate Manageable(e: Encoded)
    {
      && AreSeptets(e.septets)
      && HeaderSeptets(m) + |e.septets| <= MAX_SEPTETS
      && Room(MaxLen(m), DataStart(m), HeaderSeptets(m), |e.septets|)
      && DataStart(m) + DataOctets(|Header(ConcatOf(m))|, |e.septets|) <= MaxLen(m)
    }

    /** The PDU is complete and its lengths agree: AT+CMGS announces pduTpLen, without the SMSC part. */
    ghost predicate Built(cs: seq<octet>)
      requires Sendable(m)
      reads this, pdu
    {
      && HeaderSeptets(m) + |cs| <= MAX_SEPTETS
      && pdu != null && pduLen <= pdu.Length == MaxLen(m)
      && pdu[..pduLen] == Pdu(m, cs)
      && pduLen == pduTpLen + pdu[0] + 1
    }

    lemma EncodeBounds(t: seq<Entry>, max: int)
      requires IsGsmTable(t) && Sendable(m) && InBuffer(t, m) && AllTranslatable(t, m.text)
      requires max == MAX_SEPTETS - HeaderSeptets(m)
      ensures var e := EncodeFrom(t, m.text, max, 0);
        Manageable(e) && Underway(t, m.text, 0, max, 0, e) && (e.ok ==> e.septets == TextSeptets(t, m.text))
    {
      var e := EncodeFrom(t, m.text, max, 0);
      EncodeExact(t, m.text, max, 0);
      EncodedAreSeptets(t, m.text, max, 0);
      DataInside(|e.septets|);
      assert m.text[0..] == m.text && e.septets[0..] == e.septets;
    }

    /** The user data is no longer than what packing it touches. */
    lemma DataInside(n: nat)
      requires Sendable(m) && Room(MaxLen(m), DataStart(m), HeaderSeptets(m), n)
      ensures DataStart(m) + DataOctets(|Header(ConcatOf(m))|, n) <= MaxLen(m)
    {
      if n > 0 { OutPosValue(HeaderSeptets(m) + n - 1); }
    }

    method PutSmsc(a: array<octet>) returns (pos: nat)
      requires Sendable(m) && 2 + Octets(m.smsc) <= a.Length
      modifies a
      ensures pos == 2 + Octets(m.smsc) && a[..pos] == SmscPart(m.smsc)
      ensures forall j :: pos <= j < a.Length ==> a[j] == old(a[j])
    {
      a[0] := Octets(m.smsc) + 1;
      a[1] := TypeOfAddress(m.smsc);
      var n := TextToBcd(a, 2, m.smsc.digits);
      pos := 2 + (n + 1) / 2;
    }

    method PutDestination(a: array<octet>, at: nat) returns (pos: nat)
      requires Sendable(m) && at + 4 + Octets(m.dest) <= a.Length
      modifies a
      ensures pos == at + 4 + Octets(m.dest)
      ensures a[at..at + 4] == [FirstOctet(m), m.reference, |m.dest.digits|, TypeOfAddress(m.dest)]
      ensures a[at + 4..pos] == SemiOctets(m.dest.digits)
      ensures forall j :: 0 <= j < at || pos <= j < a.Length ==> a[j] == old(a[j])
    {
      a[at], a[at + 1], a[at + 2], a[at + 3] := FirstOctet(m), m.reference, |m.dest.digits|, TypeOfAddress(m.dest);
      var n := TextToBcd(a, at + 4, m.dest.digits);
      pos := at + 4 + (n + 1) / 2;
    }

    method PutTp(a: array<octet>, at: nat) returns (pos: nat)
      requires Sendable(m) && at + 7 + Octets(m.dest) <= a.Length
      modifies a
      ensures pos == at + 7 + Octets(m.dest) && a[at..pos] == TpPart(m)
      ensures forall j :: 0 <= j < at || pos <= j < a.Length ==> a[j] == old(a[j])
    {
      var mid := PutDestination(a, at);
      ghost var head, digits := a[at..at + 4], a[at + 4..mid];
      pos := PutLast(a, mid);
      assert a[at..at + 4] == head && a[at + 4..mid] == digits;
      Thirds(a[..], at, at + 4, mid, pos);
    }

    lemma Thirds(s: seq<octet>, i: nat, j: nat, k: nat, l: nat)
      requires i <= j <= k <= l <= |s|
      ensures s[i..l] == s[i..j] + s[j..k] + s[k..l]
    {
    }

    /** Everything before the user data length; the octets behind stay zero. */
    method PutFront(a: array<octet>) returns (preTpLen: nat, pos: nat)
      requires Sendable(m) && DataStart(m) <= a.Length && forall j :: 0 <= j < a.Length ==> a[j] == 0
      modifies a
      ensures preTpLen == 2 + Octets(m.smsc) && pos == DataStart(m) - 1
      ensures a[..pos] == SmscPart(m.smsc) + TpPart(m)
      ensures forall j :: pos <= j < a.Length ==> a[j] == 0
    {
      preTpLen := PutSmsc(a);
      ghost var smsc := a[..preTpLen];
      pos := PutTp(a, preTpLen);
      assert a[..preTpLen] == smsc;
      Thirds(a[..], 0, 0, preTpLen, pos);
    }

    method PutLast(a: array<octet>, at: nat) returns (pos: nat)
      requires at + 3 <= a.Length
      modifies a
      ensures pos == at + 3 && a[at..pos] == [0, CodingScheme(m), PeriodOctet(m.validityPeriod)]
      ensures forall j :: 0 <= j < at || pos <= j < a.Length ==> a[j] == old(a[j])
    {
      a[at] := 0;
      a[at + 1] := CodingScheme(m);
      PutPeriod(a, at + 2);
      pos := at + 3;
    }

    method PutPeriod(a: array<octet>, at: nat)
      requires at < a.Length
      modifies a
      ensures a[at] == PeriodOctet(m.validityPeriod)
      ensures forall j :: 0 <= j < a.Length && j != at ==> a[j] == old(a[j])
    {
      var period := m.validityPeriod;
      if period < 300 {
        a[at] := 1;
      } else if period <= 43200 {
        a[at] := period / 300 - 1;
      } else if period <= 86400 {
        a[at] := period / 1800 - 24 + 144;
      } else if period <= 30 * 86400 {
        a[at] := period / 86400 - 1 + 168;
      } else if period <= 63 * 7 * 86400 {
        a[at] := (period / (7 * 86400) - 1 + 197) % 256;
      } else {
        a[at] := 0xff;
      }
    }

    method PutHeader(a: array<octet>, at: nat) returns (septets: nat)
      requires at + 6 <= a.Length && forall j :: at <= j < a.Length ==> a[j] == 0
      modifies a
      ensures septets == HeaderSeptets(m) && HeaderAt(a[..], at, Header(ConcatOf(m)))
      ensures forall j :: 0 <= j < at ==> a[j] == old(a[j])
    {
      if m.maxmsg <= 1 { return 0; }
      assert Header(ConcatOf(m)) == [5, IEI_CONCATENATED, 3, m.refnum, m.maxmsg, m.seqnum];
      a[at + 1] := IEI_CONCATENATED;
      a[at + 2] := 3;
      a[at + 3] := m.refnum;
      a[at + 4] := m.maxmsg;
      a[at + 5] := m.seqnum;
      septets := OctetsToSeptets(6);
      a[at] := 6 - 1;
    }
  }
}
