/** chan_vgsm/sms_deliver.c: reading an SMS-DELIVER PDU (section 9.2.2.1 of 3GPP TS 23.040) from hexadecimal text. */
module SmsDeliver {
  import opened Bits
  import opened GsmCharset
  import opened SevenBit
  import opened SevenBitBuffers
  import opened UserData
  import opened Bcd
  import opened Hex
  import opened Text
  import opened SmsSubmit
  import opened Validity

  /** NULL in C is Rejected; Beyond is an access past the PDU, or past a text buffer of no characters, neither of
      which the code guards against; OtherCoding is a coding that is not the 7-bit default alphabet. */
  datatype Parsed<+T> = Got(value: T) | Rejected | Beyond | OtherCoding {
    predicate IsFailure() { !Got? }

    function PropagateFailure<U>(): Parsed<U>
      requires IsFailure()
    {
      match this
      case Rejected => Rejected
      case Beyond => Beyond
      case OtherCoding => OtherCoding
    }

    function Extract(): T
      requires Got?
    {
      value
    }
  }

  /** The fields before the coding scheme. */
  datatype Front = Front(smsc: Number, from: Number, moreMessages: bool, header: bool, statusReport: bool,
                         timestamp: int, timezone: int)

  /** struct vgsm_sms_deliver with a text; the class is -1 when there is none. */
  datatype Deliver = Deliver(front: Front, messageClass: int, concat: Concat, text: seq<int>)

  /** A number and the position behind it. */
  datatype Address = Address(number: Number, next: nat)

  /** The broken-down time that mktime() is given. */
  datatype Stamp = Stamp(year: int, month: int, day: int, hour: int, minute: int, second: int)

  /** The nibbles from `at` on that are in the PDU. */
  function Available(pdu: seq<octet>, at: nat): nat { if at <= |pdu| then 2 * (|pdu| - at) else 0 }

  /** Digits that do not fit their field are refused, if that shows before the end of the PDU is passed. */
  function ReadDigits(pdu: seq<octet>, at: nat, nibbles: nat): Parsed<string>
  {
    var n := if nibbles < Available(pdu, at) then nibbles else Available(pdu, at);
    var d := if at <= |pdu| then Digits(pdu[at..], n) else "";
    if |d| >= DIGITS_SIZE then Rejected
    else if n < nibbles then Beyond
    else Got(d)
  }

  function NumberOf(digits: string, toa: octet): Number { Number(digits, toa % 16, toa / 16 % 8) }

  function ReadSmsc(pdu: seq<octet>): Parsed<Address>
  {
    if pdu == [] then Beyond
    else
      var len: nat := pdu[0];
      if len > |pdu| - 1 || len > DIGITS_SIZE - 1 then Rejected
      else if |pdu| < 2 then Beyond
      else
        var d :- ReadDigits(pdu, 2, if len == 0 then 0 else 2 * (len - 1));
        Got(Address(NumberOf(d, pdu[1]), len + 1))
  }

  function ReadFrom(pdu: seq<octet>, at: nat): Parsed<Address>
  {
    if at + 2 > |pdu| then Beyond
    else
      var n: nat := pdu[at];
      var d :- ReadDigits(pdu, at + 2, n);
      Got(Address(NumberOf(d, pdu[at + 1]), at + 2 + (n + 1) / 2))
  }

  /** vgsm_nibbles_to_decimal(). */
  function Decimal(b: octet): nat { b % 16 * 10 + b / 16 }

  function StampAt(pdu: seq<octet>, at: nat): Stamp
    requires at + 6 <= |pdu|
  {
    Stamp(Decimal(pdu[at]) + 100, Decimal(pdu[at + 1]) - 1, Decimal(pdu[at + 2]), Decimal(pdu[at + 3]),
          Decimal(pdu[at + 4]), Decimal(pdu[at + 5]))
  }

  function Timezone(b: octet): int
  {
    var quarters: int := Decimal(b % 128);
    if b >= 128 then quarters else -quarters
  }

  function FrontOf(smsc: Number, from: Number, flags: octet, clock: int, zone: octet): Front
  {
    Front(smsc, from, flags / 4 % 2 == 1, flags / 64 % 2 == 1, flags / 32 % 2 == 1, clock - Timezone(zone),
          Timezone(zone))
  }

  /** The coding group decides whether the text is in the default alphabet, and where the class is. */
  function ReadCoding(dcs: octet): Parsed<int>
  {
    var group := dcs / 16;
    if group <= 3 then
      if dcs / 32 % 2 == 1 then Rejected
      else if dcs / 4 % 4 == 0 then Got(if dcs / 16 % 2 == 1 then dcs % 4 else -1)
      else OtherCoding
    else if group == 12 || group == 14 then OtherCoding
    else if group == 15 then if dcs / 4 % 2 == 1 then OtherCoding else Got(-1)
    else Rejected
  }

  /** The whole PDU; what mktime() makes of a time stamp is a parameter. */
  function ReadPdu(t: seq<Entry>, pdu: seq<octet>, mktime: Stamp -> int): Parsed<Deliver>
  {
    var smsc :- ReadSmsc(pdu);
    if smsc.next + 1 > |pdu| then Beyond
    else
      var from :- ReadFrom(pdu, smsc.next + 1);
      ReadRest(t, pdu, smsc, from, mktime)
  }

  /** What follows the two addresses. */
  function ReadRest(t: seq<Entry>, pdu: seq<octet>, smsc: Address, from: Address, mktime: Stamp -> int)
    : Parsed<Deliver>
    requires smsc.next < |pdu|
  {
    if from.next + 8 > |pdu| then Beyond
    else
      var clock := mktime(StampAt(pdu, from.next + 2));
      if clock == -1 then Rejected
      else if from.next + 10 > |pdu| then Beyond
      else
        ReadContent(t, FrontOf(smsc.number, from.number, pdu[smsc.next], clock, pdu[from.next + 8]),
                    pdu[from.next + 1], pdu[from.next + 9], pdu[from.next + 10..])
  }

  function ReadContent(t: seq<Entry>, front: Front, dcs: octet, udl: octet, data: seq<octet>): Parsed<Deliver>
  {
    match ReadHeader(front.header, data)
    case None => Beyond
    case Some(c) =>
      var messageClass :- ReadCoding(dcs);
      var skip := SkipSeptets(front.header, data);
      if udl + 1 < skip then Rejected
      else if udl < skip then Beyond
      else
        match ReadText(t, skip, udl - skip, data)
        case None => Beyond
        case Some(text) => Got(Deliver(front, messageClass, c, text))
  }

  // ---------------------------------------------------------------- what a service centre delivers

  /** The fields of an SMS-DELIVER that do not come from the submitted message. */
  datatype Delivery = Delivery(smsc: Number, from: Number, flags: octet, pid: octet, dcs: octet, stamp: seq<octet>)

  /** A number whose digits fit their field and whose type fits its bits. */
  ghost predicate Readable(n: Number)
  {
    AllDigits(n.digits) && 'd' !in n.digits && |n.digits| < DIGITS_SIZE && n.ton < 8 && n.plan < 16
  }

  ghost predicate Deliverable(d: Delivery, m: Message)
  {
    && Readable(d.smsc) && Readable(d.from)
    && (d.flags / 64 % 2 == 1 <==> ConcatOf(m).Some?) && |d.stamp| == 7
  }

  /** A PDU that carries the user data of the submitted message m to its destination. */
  function DeliverPdu(d: Delivery, m: Message, cs: seq<octet>): seq<octet>
    requires |d.smsc.digits| < DIGITS_SIZE && |d.from.digits| < DIGITS_SIZE
    requires HeaderSeptets(m) + |cs| <= MAX_SEPTETS
  {
    SmscPart(d.smsc) + [d.flags] + FromPart(d) + [HeaderSeptets(m) + |cs|] + DataOf(Header(ConcatOf(m)), cs)
  }

  function FromPart(d: Delivery): seq<octet>
    requires |d.from.digits| < DIGITS_SIZE
  {
    [|d.from.digits|, TypeOfAddress(d.from)] + SemiOctets(d.from.digits) + [d.pid, d.dcs] + d.stamp
  }

  lemma {:induction false} DigitsPrefix(b: seq<octet>, c: seq<octet>, n: nat)
    requires n <= 2 * |b|
    ensures Digits(b + c, n) == Digits(b, n)
    decreases n
  {
    if n > 0 {
      DigitsPrefix(b, c, n - 1);
      assert (b + c)[(n - 1) / 2] == b[(n - 1) / 2];
    }
  }

  lemma DigitsThere(pdu: seq<octet>, at: nat, s: string, n: nat)
    requires AllDigits(s) && 'd' !in s && (n == |s| || n == 2 * |SemiOctets(s)|)
    requires at + |SemiOctets(s)| <= |pdu| && pdu[at..at + |SemiOctets(s)|] == SemiOctets(s)
    ensures n <= Available(pdu, at) && Digits(pdu[at..], n) == s
  {
    hide AllDigits, Digits;
    var b := SemiOctets(s);
    assert pdu[at..] == b + pdu[at + |b|..];
    DigitsPrefix(b, pdu[at + |b|..], n);
    AddressRoundTrip(s);
  }

  lemma ReadDigitsBack(pdu: seq<octet>, at: nat, s: string, n: nat)
    requires AllDigits(s) && 'd' !in s && (n == |s| || n == 2 * |SemiOctets(s)|)
    requires at + |SemiOctets(s)| <= |pdu| && pdu[at..at + |SemiOctets(s)|] == SemiOctets(s)
    ensures ReadDigits(pdu, at, n) == if |s| <= 31 then Got(s) else Rejected
  {
    hide AllDigits, Digits, SemiOctets, Available;
    DigitsThere(pdu, at, s, n);
  }

  lemma NumberBack(n: Number)
    requires n.ton < 8 && n.plan < 16
    ensures NumberOf(n.digits, TypeOfAddress(n)) == n
  {
    TypeOfAddressFields(n);
  }

  /** A length, a type, the semi-octets of an address, and more. */
  lemma AddressAt(pdu: seq<octet>, at: nat, x: octet, y: octet, b: seq<octet>, rest: seq<octet>)
    requires at <= |pdu| && pdu[at..] == [x, y] + b + rest
    ensures at + 2 + |b| <= |pdu| && pdu[at] == x && pdu[at + 1] == y && pdu[at + 2..at + 2 + |b|] == b
    ensures pdu[at + 2 + |b|..] == rest
  {
    var tail := pdu[at..];
    assert tail[0] == x && tail[1] == y && tail[2..2 + |b|] == b && tail[2 + |b|..] == rest;
  }

  lemma SmscBack(pdu: seq<octet>, n: Number, rest: seq<octet>)
    requires Readable(n) && pdu == SmscPart(n) + rest
    ensures ReadSmsc(pdu) == Got(Address(n, 2 + Octets(n)))
  {
    hide TypeOfAddress, SemiOctets, ReadDigits, NumberOf;
    AddressAt(pdu, 0, Octets(n) + 1, TypeOfAddress(n), SemiOctets(n.digits), rest);
    ReadDigitsBack(pdu, 2, n.digits, 2 * Octets(n));
    NumberBack(n);
  }

  lemma FromBack(pdu: seq<octet>, at: nat, n: Number, rest: seq<octet>)
    requires Readable(n)
    requires at <= |pdu| && pdu[at..] == [|n.digits|, TypeOfAddress(n)] + SemiOctets(n.digits) + rest
    ensures ReadFrom(pdu, at) == Got(Address(n, at + 2 + Octets(n)))
    ensures at + 2 + Octets(n) <= |pdu| && pdu[at + 2 + Octets(n)..] == rest
  {
    hide TypeOfAddress, SemiOctets, ReadFrom;
    AddressAt(pdu, at, |n.digits|, TypeOfAddress(n), SemiOctets(n.digits), rest);
    FromRead(pdu, at, n, TypeOfAddress(n));
  }

  lemma FromRead(pdu: seq<octet>, at: nat, n: Number, toa: octet)
    requires Readable(n) && toa == TypeOfAddress(n)
    requires at + 2 + Octets(n) <= |pdu| && pdu[at] == |n.digits| && pdu[at + 1] == toa
    requires pdu[at + 2..at + 2 + Octets(n)] == SemiOctets(n.digits)
    ensures ReadFrom(pdu, at) == Got(Address(n, at + 2 + Octets(n)))
  {
    hide TypeOfAddress, SemiOctets, ReadDigits, NumberOf;
    ReadDigitsBack(pdu, at + 2, n.digits, |n.digits|);
    NumberBack(n);
  }

  ghost predicate IsNumber(n: Number) { AllDigits(n.digits) && 'd' !in n.digits && n.ton < 8 && n.plan < 16 }

  /** The originator of any length is read as it was written, or refused for having more than 31 digits. */
  lemma OriginatorExact(pdu: seq<octet>, at: nat, n: Number, rest: seq<octet>)
    requires IsNumber(n) && |n.digits| < 256
    requires at <= |pdu| && pdu[at..] == [|n.digits|, TypeOfAddress(n)] + SemiOctets(n.digits) + rest
    ensures ReadFrom(pdu, at) == if |n.digits| <= 31 then Got(Address(n, at + 2 + Octets(n))) else Rejected
  {
    hide TypeOfAddress, SemiOctets, ReadDigits, NumberOf, AllDigits;
    AddressAt(pdu, at, |n.digits|, TypeOfAddress(n), SemiOctets(n.digits), rest);
    if |n.digits| <= 31 { FromBack(pdu, at, n, rest); } else { ReadDigitsBack(pdu, at + 2, n.digits, |n.digits|); }
  }

  /** And so is the address of the service centre, whose length counts octets. */
  lemma ServiceCentreExact(pdu: seq<octet>, n: Number, rest: seq<octet>)
    requires IsNumber(n) && Octets(n) < 255
    requires pdu == [Octets(n) + 1, TypeOfAddress(n)] + SemiOctets(n.digits) + rest
    ensures ReadSmsc(pdu) == if |n.digits| <= 31 then Got(Address(n, 2 + Octets(n))) else Rejected
  {
    hide TypeOfAddress, SemiOctets, ReadDigits, NumberOf, AllDigits;
    AddressAt(pdu, 0, Octets(n) + 1, TypeOfAddress(n), SemiOctets(n.digits), rest);
    if |n.digits| <= 31 { SmscBack(pdu, n, rest); } else { ReadDigitsBack(pdu, 2, n.digits, 2 * Octets(n)); }
  }

  lemma LastFields(pdu: seq<octet>, at: nat, pid: octet, dcs: octet, stamp: seq<octet>, udl: octet, data: seq<octet>)
    requires at <= |pdu| && |stamp| == 7 && pdu[at..] == [pid, dcs] + stamp + [udl] + data
    ensures at + 10 <= |pdu| && pdu[at + 1] == dcs && pdu[at + 9] == udl && pdu[at + 10..] == data
    ensures pdu[at + 2..at + 9] == stamp
  {
    var tail := pdu[at..];
    assert tail[1] == dcs && tail[2..9] == stamp && tail[9] == udl && tail[10..] == data;
  }

  /** Where things are in a delivered PDU. */
  lemma DeliveredShape(d: Delivery, m: Message, cs: seq<octet>, at: nat, next: nat)
    requires Deliverable(d, m) && HeaderSeptets(m) + |cs| <= MAX_SEPTETS
    requires at == 2 + Octets(d.smsc) && next == at + 3 + Octets(d.from)
    ensures var pdu := DeliverPdu(d, m, cs);
      && ReadSmsc(pdu) == Got(Address(d.smsc, at))
      && at < |pdu| && pdu[at] == d.flags
      && ReadFrom(pdu, at + 1) == Got(Address(d.from, next))
      && next + 10 <= |pdu| && pdu[next + 1] == d.dcs && pdu[next + 2..next + 9] == d.stamp
      && pdu[next + 9] == HeaderSeptets(m) + |cs|
      && pdu[next + 10..] == DataOf(Header(ConcatOf(m)), cs)
  {
    hide ReadSmsc, ReadFrom, TypeOfAddress, SemiOctets, DataOf, Header, ReadCoding;
    var udl: octet, data := HeaderSeptets(m) + |cs|, DataOf(Header(ConcatOf(m)), cs);
    Shape(d, SmscPart(d.smsc), SemiOctets(d.from.digits), udl, data, DeliverPdu(d, m, cs), at, next);
  }

  /** The same octets, grouped as they are read. */
  lemma Regroup(smsc: seq<octet>, flags: octet, head: seq<octet>, from: seq<octet>, mid: seq<octet>,
                stamp: seq<octet>, end: seq<octet>, data: seq<octet>)
    ensures smsc + [flags] + (head + from + mid + stamp) + end + data
         == smsc + ([flags] + (head + from + (mid + stamp + end + data)))
  {
  }

  lemma Behind(front: seq<octet>, flags: octet, rest: seq<octet>, pdu: seq<octet>)
    requires pdu == front + ([flags] + rest)
    ensures |front| < |pdu| && pdu[|front|] == flags && pdu[|front| + 1..] == rest
  {
  }

  lemma FrontBack(pdu: seq<octet>, d: Delivery, rest: seq<octet>, last: seq<octet>, at: nat, next: nat)
    requires Readable(d.smsc) && Readable(d.from)
    requires at == 2 + Octets(d.smsc) && next == at + 3 + Octets(d.from)
    requires pdu == SmscPart(d.smsc) + ([d.flags] + rest)
    requires rest == [|d.from.digits|, TypeOfAddress(d.from)] + SemiOctets(d.from.digits) + last
    ensures ReadSmsc(pdu) == Got(Address(d.smsc, at))
    ensures at < |pdu| && pdu[at] == d.flags
    ensures ReadFrom(pdu, at + 1) == Got(Address(d.from, next))
    ensures next <= |pdu| && pdu[next..] == last
  {
    hide ReadSmsc, ReadFrom, TypeOfAddress, SemiOctets;
    Behind(SmscPart(d.smsc), d.flags, rest, pdu);
    assert ReadSmsc(pdu) == Got(Address(d.smsc, at)) by { SmscBack(pdu, d.smsc, [d.flags] + rest); }
    assert at + 1 + 2 + Octets(d.from) == next;
    FromBack(pdu, at + 1, d.from, last);
  }

  lemma Shape(d: Delivery, smsc: seq<octet>, from: seq<octet>, udl: octet, data: seq<octet>, pdu: seq<octet>,
              at: nat, next: nat)
    requires Readable(d.smsc) && Readable(d.from)
    requires |d.stamp| == 7 && smsc == SmscPart(d.smsc) && from == SemiOctets(d.from.digits)
    requires pdu == smsc + [d.flags]
      + ([|d.from.digits|, TypeOfAddress(d.from)] + from + [d.pid, d.dcs] + d.stamp) + [udl] + data
    requires at == 2 + Octets(d.smsc) && next == at + 3 + Octets(d.from)
    ensures ReadSmsc(pdu) == Got(Address(d.smsc, at))
    ensures at < |pdu| && pdu[at] == d.flags
    ensures ReadFrom(pdu, at + 1) == Got(Address(d.from, next))
    ensures next + 10 <= |pdu| && pdu[next + 1] == d.dcs && pdu[next + 9] == udl && pdu[next + 10..] == data
    ensures pdu[next + 2..next + 9] == d.stamp
  {
    var head := [|d.from.digits|, TypeOfAddress(d.from)];
    var last := [d.pid, d.dcs] + d.stamp + [udl] + data;
    Regroup(smsc, d.flags, head, from, [d.pid, d.dcs], d.stamp, [udl], data);
    FrontBack(pdu, d, head + from + last, last, at, next);
    LastFields(pdu, next, d.pid, d.dcs, d.stamp, udl, data);
  }

  lemma SubmitGroups(smsc: seq<octet>, two: seq<octet>, head: seq<octet>, dest: seq<octet>, mid: seq<octet>,
                     end: seq<octet>, data: seq<octet>)
    ensures smsc + (two + head + dest + mid) + end + data == smsc + (two + (head + dest + (mid + end + data)))
  {
  }

  lemma SubmitEnd(p: seq<octet>, next: nat, mid: seq<octet>, udl: octet, data: seq<octet>)
    requires next <= |p| && |mid| == 3 && p[next..] == mid + [udl] + data
    ensures next + 4 <= |p| && p[next..next + 3] == mid && p[next + 3] == udl && p[next + 4..] == data
  {
    var tail := p[next..];
    assert tail[..3] == mid && tail[3] == udl && tail[4..] == data;
  }

  /** Both addresses, the reference and the user data of a submitted PDU can be read back from it. */
  lemma SubmitReadBack(m: Message, cs: seq<octet>, at: nat, next: nat)
    requires Sendable(m) && HeaderSeptets(m) + |cs| <= MAX_SEPTETS
    requires Readable(m.smsc) && Readable(m.dest)
    requires at == 2 + Octets(m.smsc) && next == at + 4 + Octets(m.dest)
    ensures var p := Pdu(m, cs);
      && ReadSmsc(p) == Got(Address(m.smsc, at))
      && at + 2 <= |p| && p[at] == FirstOctet(m) && p[at + 1] == m.reference
      && ReadFrom(p, at + 2) == Got(Address(m.dest, next))
      && next + 4 <= |p| && p[next..next + 3] == [0, CodingScheme(m), PeriodOctet(m.validityPeriod)]
      && p[next + 3] == HeaderSeptets(m) + |cs| && p[next + 4..] == DataOf(Header(ConcatOf(m)), cs)
  {
    var udl: octet, data := HeaderSeptets(m) + |cs|, DataOf(Header(ConcatOf(m)), cs);
    SubmitShape(Pdu(m, cs), m, udl, data, at, next);
  }

  lemma SubmitShape(p: seq<octet>, m: Message, udl: octet, data: seq<octet>, at: nat, next: nat)
    requires Sendable(m) && p == SmscPart(m.smsc) + TpPart(m) + [udl] + data
    requires Readable(m.smsc) && Readable(m.dest)
    requires at == 2 + Octets(m.smsc) && next == at + 4 + Octets(m.dest)
    ensures ReadSmsc(p) == Got(Address(m.smsc, at))
    ensures at + 2 <= |p| && p[at] == FirstOctet(m) && p[at + 1] == m.reference
    ensures ReadFrom(p, at + 2) == Got(Address(m.dest, next))
    ensures next + 4 <= |p| && p[next..next + 3] == [0, CodingScheme(m), PeriodOctet(m.validityPeriod)]
    ensures p[next + 3] == udl && p[next + 4..] == data
  {
    var two, head := [FirstOctet(m), m.reference], [|m.dest.digits|, TypeOfAddress(m.dest)];
    var dest, mid := SemiOctets(m.dest.digits), [0, CodingScheme(m), PeriodOctet(m.validityPeriod)];
    assert TpPart(m) == two + head + dest + mid;
    SubmitGroups(SmscPart(m.smsc), two, head, dest, mid, [udl], data);
    var last := mid + [udl] + data;
    SubmitAddresses(p, m, two, head + dest + last, last, at, next);
    SubmitEnd(p, next, mid, udl, data);
  }

  lemma SubmitAddresses(p: seq<octet>, m: Message, two: seq<octet>, rest: seq<octet>, last: seq<octet>, at: nat,
                        next: nat)
    requires Sendable(m) && |two| == 2 && p == SmscPart(m.smsc) + (two + rest)
    requires rest == [|m.dest.digits|, TypeOfAddress(m.dest)] + SemiOctets(m.dest.digits) + last
    requires Readable(m.smsc) && Readable(m.dest)
    requires at == 2 + Octets(m.smsc) && next == at + 4 + Octets(m.dest)
    ensures ReadSmsc(p) == Got(Address(m.smsc, at))
    ensures at + 2 <= |p| && p[at] == two[0] && p[at + 1] == two[1]
    ensures ReadFrom(p, at + 2) == Got(Address(m.dest, next)) && next <= |p| && p[next..] == last
  {
    hide ReadSmsc, ReadFrom, TypeOfAddress, SemiOctets;
    BehindTwo(SmscPart(m.smsc), two, rest, p);
    assert ReadSmsc(p) == Got(Address(m.smsc, at)) by { SmscBack(p, m.smsc, two + rest); }
    assert at + 2 + 2 + Octets(m.dest) == next;
    FromBack(p, at + 2, m.dest, last);
  }

  lemma BehindTwo(front: seq<octet>, two: seq<octet>, rest: seq<octet>, p: seq<octet>)
    requires |two| == 2 && p == front + (two + rest)
    ensures |front| + 2 <= |p| && p[|front|] == two[0] && p[|front| + 1] == two[1] && p[|front| + 2..] == rest
  {
  }

  lemma ContentRead(t: seq<Entry>, front: Front, dcs: octet, udl: octet, data: seq<octet>, messageClass: int,
                    c: Concat, skip: nat, text: seq<int>)
    requires ReadCoding(dcs) == Got(messageClass)
    requires ReadHeader(front.header, data) == Some(c) && (front.header ==> data != [])
    requires SkipSeptets(front.header, data) == skip <= udl && ReadText(t, skip, udl - skip, data) == Some(text)
    ensures ReadContent(t, front, dcs, udl, data) == Got(Deliver(front, messageClass, c, text))
  {
  }

  /** What becomes of a message in this coding. */
  function WithClass(coding: Parsed<int>, front: Front, c: Concat, text: seq<int>): Parsed<Deliver>
  {
    var messageClass :- coding;
    Got(Deliver(front, messageClass, c, text))
  }

  lemma ContentRefused(t: seq<Entry>, front: Front, dcs: octet, udl: octet, data: seq<octet>, c: Concat,
                       text: seq<int>)
    requires ReadCoding(dcs).IsFailure() && ReadHeader(front.header, data) == Some(c)
    ensures ReadContent(t, front, dcs, udl, data) == WithClass(ReadCoding(dcs), front, c, text)
  {
    hide ReadCoding, ReadHeader, ReadText;
  }

  lemma ContentBack(t: seq<Entry>, front: Front, c: Option<Concat>, dcs: octet, cs: seq<octet>, udl: octet,
                    data: seq<octet>)
    requires AreSeptets(cs) && front.header == c.Some?
    requires udl == OctetsToSeptets(|Header(c)|) + |cs| && data == DataOf(Header(c), cs)
    ensures ReadContent(t, front, dcs, udl, data)
         == WithClass(ReadCoding(dcs), front, c.GetOr(NO_CONCAT), DecodeSeptets(t, cs))
  {
    hide ReadCoding, ReadContent;
    var skip, text := OctetsToSeptets(|Header(c)|), DecodeSeptets(t, cs);
    DataRoundTrip(t, c, cs, []);
    assert DataOf(Header(c), cs) + [] == data;
    HeaderKept(Header(c), cs);
    HeaderReadBack(c, data);
    if ReadCoding(dcs).Got? {
      ContentRead(t, front, dcs, udl, data, ReadCoding(dcs).value, c.GetOr(NO_CONCAT), skip, text);
    } else {
      ContentRefused(t, front, dcs, udl, data, c.GetOr(NO_CONCAT), text);
    }
  }

  /** What the fields of a delivered PDU say. */
  function FrontOfDelivery(d: Delivery, mktime: Stamp -> int): Front
    requires |d.stamp| == 7
  {
    FrontOf(d.smsc, d.from, d.flags, mktime(StampAt(d.stamp, 0)), d.stamp[6])
  }

  /** What a delivered PDU is read as, septet for septet. */
  function Expected(d: Delivery, m: Message, text: seq<int>, mktime: Stamp -> int): Parsed<Deliver>
    requires |d.stamp| == 7
  {
    if mktime(StampAt(d.stamp, 0)) == -1 then Rejected
    else WithClass(ReadCoding(d.dcs), FrontOfDelivery(d, mktime), ConcatOf(m).GetOr(NO_CONCAT), text)
  }

  lemma PduReadBack(t: seq<Entry>, d: Delivery, m: Message, cs: seq<octet>, mktime: Stamp -> int)
    requires Deliverable(d, m) && AreSeptets(cs) && HeaderSeptets(m) + |cs| <= MAX_SEPTETS
    ensures ReadPdu(t, DeliverPdu(d, m, cs), mktime) == Expected(d, m, DecodeSeptets(t, cs), mktime)
  {
    hide ReadSmsc, ReadFrom, ReadRest, ReadPdu, ReadCoding, DeliverPdu, Expected, StampAt, DataOf;
    var at := 2 + Octets(d.smsc);
    var next := at + 3 + Octets(d.from);
    DeliveredShape(d, m, cs, at, next);
    RestReadBack(t, d, m, cs, DeliverPdu(d, m, cs), Address(d.smsc, at), Address(d.from, next), mktime);
    PduRead(t, DeliverPdu(d, m, cs), Address(d.smsc, at), Address(d.from, next), mktime,
            Expected(d, m, DecodeSeptets(t, cs), mktime));
  }

  lemma RestReadBack(t: seq<Entry>, d: Delivery, m: Message, cs: seq<octet>, pdu: seq<octet>, smsc: Address,
                     from: Address, mktime: Stamp -> int)
    requires Deliverable(d, m) && AreSeptets(cs) && HeaderSeptets(m) + |cs| <= MAX_SEPTETS
    requires smsc.number == d.smsc && from.number == d.from
    requires smsc.next < |pdu| && pdu[smsc.next] == d.flags && from.next + 10 <= |pdu|
    requires pdu[from.next + 1] == d.dcs && pdu[from.next + 2..from.next + 9] == d.stamp
    requires pdu[from.next + 9] == HeaderSeptets(m) + |cs| && pdu[from.next + 10..] == DataOf(Header(ConcatOf(m)), cs)
    ensures ReadRest(t, pdu, smsc, from, mktime) == Expected(d, m, DecodeSeptets(t, cs), mktime)
  {
    hide ReadRest, ReadContent, ReadCoding, StampAt, DataOf, WithClass;
    StampBack(pdu, from.next + 2, d.stamp);
    if mktime(StampAt(d.stamp, 0)) == -1 {
      TimeRefused(t, pdu, smsc, from, mktime);
    } else {
      var front, r := FrontOfDelivery(d, mktime), Expected(d, m, DecodeSeptets(t, cs), mktime);
      ContentBack(t, front, ConcatOf(m), d.dcs, cs, pdu[from.next + 9], pdu[from.next + 10..]);
      RestRead(t, pdu, smsc, from, front, mktime, r);
    }
  }

  lemma TimeRefused(t: seq<Entry>, pdu: seq<octet>, smsc: Address, from: Address, mktime: Stamp -> int)
    requires smsc.next < |pdu| && from.next + 10 <= |pdu| && mktime(StampAt(pdu, from.next + 2)) == -1
    ensures ReadRest(t, pdu, smsc, from, mktime) == Rejected
  {
    hide ReadContent, StampAt;
  }

  lemma StampBack(pdu: seq<octet>, at: nat, stamp: seq<octet>)
    requires |stamp| == 7 && at + 7 <= |pdu| && pdu[at..at + 7] == stamp
    ensures StampAt(pdu, at) == StampAt(stamp, 0) && pdu[at + 6] == stamp[6]
  {
    var part := pdu[at..at + 7];
    assert part[0] == pdu[at] && part[1] == pdu[at + 1] && part[2] == pdu[at + 2] && part[3] == pdu[at + 3];
    assert part[4] == pdu[at + 4] && part[5] == pdu[at + 5] && part[6] == pdu[at + 6];
  }

  lemma RestRead(t: seq<Entry>, pdu: seq<octet>, smsc: Address, from: Address, front: Front, mktime: Stamp -> int,
                 r: Parsed<Deliver>)
    requires smsc.next < |pdu| && from.next + 10 <= |pdu|
    requires var clock := mktime(StampAt(pdu, from.next + 2));
      clock != -1 && front == FrontOf(smsc.number, from.number, pdu[smsc.next], clock, pdu[from.next + 8])
    requires ReadContent(t, front, pdu[from.next + 1], pdu[from.next + 9], pdu[from.next + 10..]) == r
    ensures ReadRest(t, pdu, smsc, from, mktime) == r
  {
    hide ReadContent, FrontOf, StampAt;
  }

  lemma PduRead(t: seq<Entry>, pdu: seq<octet>, smsc: Address, from: Address, mktime: Stamp -> int,
                r: Parsed<Deliver>)
    requires ReadSmsc(pdu) == Got(smsc) && smsc.next < |pdu|
    requires ReadFrom(pdu, smsc.next + 1) == Got(from)
    requires ReadRest(t, pdu, smsc, from, mktime) == r
    ensures ReadPdu(t, pdu, mktime) == r
  {
    hide ReadSmsc, ReadFrom, ReadRest;
  }

  // ---------------------------------------------------------------- field by field

  /** The data coding schemes (section 4 of 3GPP TS 23.038): the general group, the one of data coding and message
      class, the message waiting groups, and the others. */
  datatype Coding =
    | General(compressed: bool, hasClass: bool, alphabet: nat, messageClass: nat)
    | DataClass(reserved: bool, eightBit: bool, messageClass: nat)
    | Waiting(ucs2: bool, rest: nat)
    | Reserved(group: nat, rest: nat)

  ghost predicate IsCoding(c: Coding)
  {
    match c
    case General(_, _, alphabet, messageClass) => alphabet < 4 && messageClass < 4
    case DataClass(_, _, messageClass) => messageClass < 4
    case Waiting(_, rest) => rest < 16
    case Reserved(group, rest) => (4 <= group < 12 || group == 13) && rest < 16
  }

  function CodingOctet(c: Coding): (x: octet)
    requires IsCoding(c)
  {
    match c
    case General(compressed, hasClass, alphabet, messageClass) =>
      Flag(compressed, 32) + Flag(hasClass, 16) + 4 * alphabet + messageClass
    case DataClass(reserved, eightBit, messageClass) => 240 + Flag(reserved, 8) + Flag(eightBit, 4) + messageClass
    case Waiting(ucs2, rest) => (if ucs2 then 224 else 192) + rest
    case Reserved(group, rest) => 16 * group + rest
  }

  lemma GeneralOctet(x: nat)
    requires x < 64
    ensures x == 32 * (x / 32 % 2) + 16 * (x / 16 % 2) + 4 * (x / 4 % 4) + x % 4
  {
    assert x == 4 * (x / 4) + x % 4 && x / 4 == 4 * (x / 16) + x / 4 % 4 && x / 16 == 2 * (x / 32) + x / 16 % 2;
  }

  lemma DataClassOctet(x: nat)
    requires 240 <= x < 256
    ensures x == 240 + 8 * (x / 8 % 2) + 4 * (x / 4 % 2) + x % 4
  {
    assert x == 4 * (x / 4) + x % 4 && x / 4 == 2 * (x / 8) + x / 4 % 2 && x / 8 == 30 + x / 8 % 2;
  }

  /** Every octet is one of them. */
  lemma CodingOf(x: octet) returns (c: Coding)
    ensures IsCoding(c) && CodingOctet(c) == x
  {
    var group, rest := x / 16, x % 16;
    if group < 4 {
      GeneralOctet(x);
      c := General(x / 32 % 2 == 1, x / 16 % 2 == 1, x / 4 % 4, x % 4);
    } else if group == 15 {
      DataClassOctet(x);
      c := DataClass(x / 8 % 2 == 1, x / 4 % 2 == 1, x % 4);
    } else if group == 12 || group == 14 {
      c := Waiting(group == 14, rest);
    } else {
      c := Reserved(group, rest);
    }
  }

  /** The class of a text in the default alphabet; compressed texts and the reserved groups are refused. */
  function ClassSaid(c: Coding): Parsed<int>
  {
    match c
    case General(compressed, hasClass, alphabet, messageClass) =>
      if compressed then Rejected else if alphabet != 0 then OtherCoding else Got(if hasClass then messageClass else -1)
    case DataClass(_, eightBit, _) => if eightBit then OtherCoding else Got(-1)
    case Waiting(_, _) => OtherCoding
    case Reserved(_, _) => Rejected
  }

  lemma CodingRead(c: Coding)
    requires IsCoding(c)
    ensures ReadCoding(CodingOctet(c)) == ClassSaid(c)
  {
    var x := CodingOctet(c);
    match c {
      case General(compressed, hasClass, alphabet, messageClass) =>
        GeneralFields(Flag(compressed, 1), Flag(hasClass, 1), alphabet, messageClass, x);
      case DataClass(reserved, eightBit, messageClass) =>
        assert x / 16 == 15 && x / 4 == 60 + Flag(reserved, 2) + Flag(eightBit, 1);
      case Waiting(_, _) =>
      case Reserved(group, _) => assert x / 16 == group;
    }
  }

  lemma GeneralFields(a: nat, b: nat, c: nat, d: nat, x: nat)
    requires a < 2 && b < 2 && c < 4 && d < 4 && x == 32 * a + 16 * b + 4 * c + d
    ensures x / 16 < 4 && x / 32 % 2 == a && x / 16 % 2 == b && x / 4 % 4 == c && x % 4 == d
  {
    assert x / 4 == 8 * a + 4 * b + c && x / 16 == 2 * a + b && x / 32 == a;
  }

  /** A submitted text is in the default alphabet, and of its message's class. */
  lemma SubmitCoding(m: Message)
    ensures CodingScheme(m) == CodingOctet(General(false, true, 0, m.messageClass % 4))
    ensures ReadCoding(CodingScheme(m)) == Got(m.messageClass % 4)
  {
    CodingRead(General(false, true, 0, m.messageClass % 4));
  }

  /** What a service centre says about a message, in its own terms: the first octet flag by flag, the time digit by
      digit, and the zone as the code takes it, a sign and two digits. */
  datatype Service = Service(
    smsc: Number, from: Number,
    messageType: nat, moreMessages: bool, loop: nat, statusReport: bool, replyPath: bool, pid: octet, coding: Coding,
    year: nat, month: nat, day: nat, hour: nat, minute: nat, second: nat, east: bool, tens: nat, ones: nat)

  ghost predicate IsService(v: Service)
  {
    && Readable(v.smsc) && Readable(v.from) && v.messageType < 4 && v.loop < 4 && IsCoding(v.coding)
    && v.year < 100 && v.month < 100 && v.day < 100 && v.hour < 100 && v.minute < 100 && v.second < 100
    && v.tens < 16 && v.ones < 8
  }

  /** Two digits as a semi-octet pair: the first one is the low nibble (section 9.1.2.3 of 3GPP TS 23.040). */
  function Swapped(x: nat): octet
    requires x < 100
  {
    x / 10 + 16 * (x % 10)
  }

  function DeliveryOf(v: Service, header: bool): Delivery
    requires IsService(v)
  {
    Delivery(v.smsc, v.from,
             v.messageType + Flag(v.moreMessages, 4) + 8 * v.loop + Flag(v.statusReport, 32) + Flag(header, 64)
             + Flag(v.replyPath, 128),
             v.pid, CodingOctet(v.coding),
             [Swapped(v.year), Swapped(v.month), Swapped(v.day), Swapped(v.hour), Swapped(v.minute), Swapped(v.second),
              v.tens + 16 * v.ones + Flag(v.east, 128)])
  }

  function Zone(v: Service): int { if v.east then 10 * v.tens + v.ones else -(10 * v.tens + v.ones) }

  /** The same message in the terms of the structure that it is read into. */
  function Said(v: Service, m: Message, text: seq<int>, mktime: Stamp -> int): Parsed<Deliver>
  {
    var clock := mktime(Stamp(v.year + 100, v.month - 1, v.day, v.hour, v.minute, v.second));
    if clock == -1 then Rejected
    else
      var messageClass :- ClassSaid(v.coding);
      var header := ConcatOf(m).Some?;
      var front := Front(v.smsc, v.from, v.moreMessages, header, v.statusReport, clock - Zone(v), Zone(v));
      Got(Deliver(front, messageClass, if header then Concat(m.refnum, m.maxmsg, m.seqnum) else Concat(0, 0, 0), text))
  }

  lemma TwoDigits(x: nat)
    requires x < 100
    ensures Decimal(Swapped(x)) == x
  {
    assert Swapped(x) % 16 == x / 10 && Swapped(x) / 16 == x % 10;
  }

  lemma ZoneRead(tens: nat, ones: nat, east: bool)
    requires tens < 16 && ones < 8
    ensures Timezone(tens + 16 * ones + Flag(east, 128)) == if east then 10 * tens + ones else -(10 * tens + ones)
  {
    var z := tens + 16 * ones + Flag(east, 128);
    assert z % 128 == tens + 16 * ones && z % 128 % 16 == tens && z % 128 / 16 == ones;
  }

  lemma FlagsRead(a: nat, b: nat, c: nat, d: nat, e: nat, f: nat, x: nat)
    requires a < 4 && b < 2 && c < 4 && d < 2 && e < 2 && f < 2
    requires x == a + 4 * b + 8 * c + 32 * d + 64 * e + 128 * f
    ensures x < 256 && x / 4 % 2 == b && x / 32 % 2 == d && x / 64 % 2 == e
  {
    assert x / 4 == b + 2 * c + 8 * d + 16 * e + 32 * f;
    assert x / 32 == d + 2 * e + 4 * f && x / 64 == e + 2 * f;
  }

  lemma ServiceFlags(v: Service, header: bool)
    requires IsService(v)
    ensures var x := DeliveryOf(v, header).flags;
      && (x / 4 % 2 == 1 <==> v.moreMessages) && (x / 32 % 2 == 1 <==> v.statusReport)
      && (x / 64 % 2 == 1 <==> header)
  {
    hide CodingOctet, Swapped, Readable;
    FlagsRead(v.messageType, Flag(v.moreMessages, 1), v.loop, Flag(v.statusReport, 1), Flag(header, 1),
              Flag(v.replyPath, 1), DeliveryOf(v, header).flags);
  }

  lemma ServiceTime(v: Service, header: bool)
    requires IsService(v)
    ensures StampAt(DeliveryOf(v, header).stamp, 0)
         == Stamp(v.year + 100, v.month - 1, v.day, v.hour, v.minute, v.second)
    ensures Timezone(DeliveryOf(v, header).stamp[6]) == Zone(v)
  {
    hide CodingOctet, Swapped, Readable, Decimal, Timezone, Flag;
    TwoDigits(v.year);
    TwoDigits(v.month);
    TwoDigits(v.day);
    TwoDigits(v.hour);
    TwoDigits(v.minute);
    TwoDigits(v.second);
    ZoneRead(v.tens, v.ones, v.east);
  }

  lemma ServiceExpected(v: Service, m: Message, text: seq<int>, mktime: Stamp -> int)
    requires IsService(v)
    ensures Deliverable(DeliveryOf(v, ConcatOf(m).Some?), m)
    ensures Expected(DeliveryOf(v, ConcatOf(m).Some?), m, text, mktime) == Said(v, m, text, mktime)
  {
    hide CodingOctet, Swapped, Readable, Timezone, StampAt, ReadCoding, Decimal, Flag, Zone;
    var d := DeliveryOf(v, ConcatOf(m).Some?);
    ServiceFlags(v, ConcatOf(m).Some?);
    ServiceTime(v, ConcatOf(m).Some?);
    CodingRead(v.coding);
    assert d.smsc == v.smsc && d.from == v.from && d.dcs == CodingOctet(v.coding);
  }

  /** Whatever the service centre says is read as it says it: addresses, flags, time, zone, coding and class, then
      concatenation fields and septets. */
  lemma ServiceReadBack(t: seq<Entry>, v: Service, m: Message, cs: seq<octet>, mktime: Stamp -> int)
    requires IsService(v) && AreSeptets(cs) && HeaderSeptets(m) + |cs| <= MAX_SEPTETS
    ensures ReadPdu(t, DeliverPdu(DeliveryOf(v, ConcatOf(m).Some?), m, cs), mktime)
         == Said(v, m, DecodeSeptets(t, cs), mktime)
  {
    hide ReadPdu, DeliverPdu, Expected, Said, DeliveryOf;
    ServiceExpected(v, m, DecodeSeptets(t, cs), mktime);
    PduReadBack(t, DeliveryOf(v, ConcatOf(m).Some?), m, cs, mktime);
  }

  /** The zone in quarters of an hour that the octet z stands for in section 9.2.3.11 of 3GPP TS 23.040: the sign is
      the highest bit of the first digit. */
  function StandardZone(z: octet): int
  {
    var quarters := 10 * (z % 8) + z / 16;
    if z / 8 % 2 == 1 then -quarters else quarters
  }

  lemma ZoneParts(tens: nat, ones: nat, z: nat)
    requires tens < 16 && ones < 16 && z == tens + 16 * ones
    ensures z % 16 == tens && z / 16 == ones && z % 8 == tens % 8 && z / 8 % 2 == tens / 8 && (z < 128 <==> ones < 8)
    ensures z % 128 == tens + 16 * (ones % 8) && z % 128 / 16 == ones % 8 && z % 128 % 16 == tens
  {
  }

  /** The code looks for the sign in the second digit, and takes it the other way round: it is right about GMT alone. */
  lemma ZoneExact(z: octet)
    ensures Timezone(z) == StandardZone(z) <==> z == 0
  {
    var tens, ones := z % 16, z / 16;
    ZoneParts(tens, ones, z);
    assert Timezone(z) == (if ones < 8 then -(10 * tens + ones) else 10 * tens + ones - 8);
    assert StandardZone(z) == if tens < 8 then 10 * tens + ones else -(10 * (tens - 8) + ones);
  }

  /** The message as it is sent: translatable, and short enough for vgsm_wc_to_7bit(). */
  ghost predicate Accepted(t: seq<Entry>, m: Message)
  {
    AllTranslatable(t, m.text) && EncodeFrom(t, m.text, MAX_SEPTETS - HeaderSeptets(m), 0).ok
  }

  function Reread(t: seq<Entry>, pdu: seq<octet>, mktime: Stamp -> int): Parsed<Deliver>
  {
    ReadPdu(t, ParseHex(HexText(pdu)), mktime)
  }

  /** The delivered PDU printed and parsed again. */
  function Received(t: seq<Entry>, d: Delivery, m: Message, cs: seq<octet>, mktime: Stamp -> int): Parsed<Deliver>
    requires |d.smsc.digits| < DIGITS_SIZE && |d.from.digits| < DIGITS_SIZE
    requires HeaderSeptets(m) + |cs| <= MAX_SEPTETS
  {
    Reread(t, DeliverPdu(d, m, cs), mktime)
  }

  /** From text to text: a message that was submitted, printed, delivered and parsed comes back with its reference,
      total and sequence numbers and all that the service centre says, and with its own text exactly when that has no
      escaped character. */
  lemma MessageRoundTrip(t: seq<Entry>, v: Service, m: Message, mktime: Stamp -> int)
    requires IsGsmTable(t) && IsService(v) && Accepted(t, m)
    ensures HeaderSeptets(m) + |TextSeptets(t, m.text)| <= MAX_SEPTETS
    ensures exists text ::
      && Received(t, DeliveryOf(v, ConcatOf(m).Some?), m, TextSeptets(t, m.text), mktime) == Said(v, m, text, mktime)
      && (text == m.text <==> AllBasic(t, m.text))
  {
    hide ReadPdu, DeliverPdu, Said, TextSeptets, DecodeSeptets, EncodeFrom, CodingOctet, Swapped;
    var cs := TextSeptets(t, m.text);
    EncodeExact(t, m.text, MAX_SEPTETS - HeaderSeptets(m), 0);
    TextSeptetsAreSeptets(t, m.text);
    HexRoundTrip(DeliverPdu(DeliveryOf(v, ConcatOf(m).Some?), m, cs));
    ServiceReadBack(t, v, m, cs, mktime);
    TextRoundTrip(t, m.text);
    var text := DecodeSeptets(t, cs);
    assert Received(t, DeliveryOf(v, ConcatOf(m).Some?), m, cs, mktime) == Said(v, m, text, mktime);
  }

  // ---------------------------------------------------------------- reading from the buffer

  /** vgsm_bcd_to_text() into a field of DIGITS_SIZE characters. */
  method ReadAddress(pdu: array<octet>, at: nat, nibbles: nat) returns (r: Parsed<string>)
    ensures r == ReadDigits(pdu[..], at, nibbles)
  {
    if at > pdu.Length { return if nibbles == 0 then Got("") else Beyond; }
    var available := 2 * (pdu.Length - at);
    var n := if nibbles < available then nibbles else available;
    assert pdu[..][at..] == pdu[at..];
    var d := BcdToText(pdu, at, n, DIGITS_SIZE);
    if d.None? { return Rejected; }
    r := if n < nibbles then Beyond else Got(d.value);
  }

  method ReadServiceCentre(pdu: array<octet>) returns (r: Parsed<Address>)
    ensures r == ReadSmsc(pdu[..])
  {
    hide ReadDigits, NumberOf;
    if pdu.Length == 0 { return Beyond; }
    var len := pdu[0];
    if len > pdu.Length - 1 { return Rejected; }
    if len > DIGITS_SIZE - 1 { return Rejected; }
    if pdu.Length < 2 { return Beyond; }
    var d :- ReadAddress(pdu, 2, if len == 0 then 0 else 2 * (len - 1));
    r := Got(Address(NumberOf(d, pdu[1]), len + 1));
  }

  method ReadOriginator(pdu: array<octet>, at: nat) returns (r: Parsed<Address>)
    ensures r == ReadFrom(pdu[..], at)
  {
    hide ReadDigits, NumberOf;
    if at + 2 > pdu.Length { return Beyond; }
    var n: nat := pdu[at];
    var d :- ReadAddress(pdu, at + 2, n);
    r := Got(Address(NumberOf(d, pdu[at + 1]), at + 2 + (n + 1) / 2));
  }

  /** The loop over the information elements of the header at `pos`. */
  method ReadElements(pdu: array<octet>, pos: nat, udhl: nat) returns (r: Option<Concat>)
    requires pos <= pdu.Length
    ensures r == HeaderElements(pdu[pos..], udhl, 1, NO_CONCAT)
  {
    var c := NO_CONCAT;
    var udhPos := pos + 1;
    while udhPos < pos + udhl
      invariant udhPos > pos
      invariant HeaderElements(pdu[pos..], udhl, udhPos - pos, c) == HeaderElements(pdu[pos..], udhl, 1, NO_CONCAT)
    {
      if udhPos + 2 > pdu.Length { return None; }
      var id, len := pdu[udhPos], pdu[udhPos + 1];
      udhPos := udhPos + 2;
      if id == IEI_CONCATENATED && len >= 3 {
        if udhPos + 3 > pdu.Length { return None; }
        c := Concat(pdu[udhPos], pdu[udhPos + 1], pdu[udhPos + 2]);
      }
      udhPos := udhPos + len;
    }
    return Some(c);
  }

  /** The concatenation fields, when a header is announced. */
  method ReadHeaderAt(pdu: array<octet>, pos: nat, udhi: bool) returns (r: Option<Concat>)
    requires pos <= pdu.Length
    ensures r == ReadHeader(udhi, pdu[pos..])
    ensures udhi && r.Some? ==> pos < pdu.Length
  {
    if !udhi { return Some(NO_CONCAT); }
    if pos >= pdu.Length { return None; }
    r := ReadElements(pdu, pos, pdu[pos]);
  }

  method ReadTextAt(t: seq<Entry>, pdu: array<octet>, pos: nat, skip: nat, n: nat) returns (r: Option<seq<int>>)
    requires pos <= pdu.Length
    ensures r == ReadText(t, skip, n, pdu[pos..])
  {
    if n > 0 && pos + SeptetsToOctets(skip + n) > pdu.Length { return None; }
    var out := new int[n + 1](_ => 0);
    var k := SevenBitToWide(t, pdu, pos, n, skip, out);
    UnpackFrom(pdu[..], pos, skip, n);
    assert pdu[..][pos..] == pdu[pos..];
    return Some(out[..k]);
  }

  method ReadContentAt(t: seq<Entry>, pdu: array<octet>, pos: nat, front: Front, dcs: octet, udl: octet)
    returns (r: Parsed<Deliver>)
    requires pos <= pdu.Length
    ensures r == ReadContent(t, front, dcs, udl, pdu[pos..])
  {
    hide ReadHeader, ReadText, ReadCoding;
    var c := ReadHeaderAt(pdu, pos, front.header);
    if c.None? { return Beyond; }
    var messageClass :- ReadCoding(dcs);
    var skip := if front.header then OctetsToSeptets((pdu[pos] as nat) + 1) else 0;
    if udl + 1 < skip { return Rejected; }
    if udl < skip { return Beyond; }
    var text := ReadTextAt(t, pdu, pos, skip, udl - skip);
    r := if text.None? then Beyond else Got(Deliver(front, messageClass, c.value, text.value));
  }

  method ReadRestAt(t: seq<Entry>, pdu: array<octet>, smsc: Address, from: Address, mktime: Stamp -> int)
    returns (r: Parsed<Deliver>)
    requires smsc.next < pdu.Length
    ensures r == ReadRest(t, pdu[..], smsc, from, mktime)
  {
    hide ReadContent, FrontOf, Decimal;
    var pos := from.next + 2;
    if pos + 6 > pdu.Length { return Beyond; }
    var clock := mktime(Stamp(Decimal(pdu[pos]) + 100, Decimal(pdu[pos + 1]) - 1, Decimal(pdu[pos + 2]),
                              Decimal(pdu[pos + 3]), Decimal(pdu[pos + 4]), Decimal(pdu[pos + 5])));
    if clock == -1 { return Rejected; }
    pos := pos + 6;
    if pos + 2 > pdu.Length { return Beyond; }
    var front := FrontOf(smsc.number, from.number, pdu[smsc.next], clock, pdu[pos]);
    assert pdu[..][pos + 2..] == pdu[pos + 2..];
    r := ReadContentAt(t, pdu, pos + 2, front, pdu[from.next + 1], pdu[pos + 1]);
  }

  /** The walk through the octets. */
  method ReadFields(t: seq<Entry>, pdu: array<octet>, mktime: Stamp -> int) returns (r: Parsed<Deliver>)
    ensures r == ReadPdu(t, pdu[..], mktime)
  {
    hide ReadSmsc, ReadFrom, ReadRest;
    var smsc :- ReadServiceCentre(pdu);
    if smsc.next + 1 > pdu.Length { return Beyond; }
    var from :- ReadOriginator(pdu, smsc.next + 1);
    r := ReadRestAt(t, pdu, smsc, from, mktime);
  }

  /** vgsm_sms_deliver_init_from_pdu(). */
  method InitFromPdu(t: seq<Entry>, textPdu: string, mktime: Stamp -> int) returns (r: Parsed<Deliver>)
    ensures r == if |textPdu| % 2 != 0 then Rejected else ReadPdu(t, ParseHex(textPdu), mktime)
  {
    hide ReadPdu, ParseHex;
    var pdu := ReadHex(textPdu);
    if pdu == null { return Rejected; }
    r := ReadFields(t, pdu, mktime);
  }
}
