/** The GSM 7-bit default alphabet (section 6.2.1 of 3GPP TS 23.038) as chan_vgsm/gsm_charset.c tabulates it. */
module GsmCharset {
  import opened Bits

  const ENTRIES := 137
  const ESCAPE := 0x1B

  /** Septet, second septet of an escaped character or 0, and the wide character. */
  datatype Entry = Entry(c: nat, c2: nat, wc: int)

  const ROW0: seq<Entry> := [
    Entry(0x00, 0x00, 0x0040), Entry(0x01, 0x00, 0x00A3), Entry(0x02, 0x00, 0x0024), Entry(0x03, 0x00, 0x00A5),
    Entry(0x04, 0x00, 0x00E8), Entry(0x05, 0x00, 0x00E9), Entry(0x06, 0x00, 0x00F9), Entry(0x07, 0x00, 0x00EC),
    Entry(0x08, 0x00, 0x00F2), Entry(0x09, 0x00, 0x00C7), Entry(0x0A, 0x00, 0x000A), Entry(0x0B, 0x00, 0x00D8),
    Entry(0x0C, 0x00, 0x00F8), Entry(0x0D, 0x00, 0x000D), Entry(0x0E, 0x00, 0x00C5), Entry(0x0F, 0x00, 0x00E5)]

  const ROW1: seq<Entry> := [
    Entry(0x10, 0x00, 0x0394), Entry(0x11, 0x00, 0x005F), Entry(0x12, 0x00, 0x03A6), Entry(0x13, 0x00, 0x0393),
    Entry(0x14, 0x00, 0x039B), Entry(0x15, 0x00, 0x03A9), Entry(0x16, 0x00, 0x03A0), Entry(0x17, 0x00, 0x03A8),
    Entry(0x18, 0x00, 0x03A3), Entry(0x19, 0x00, 0x0398), Entry(0x1A, 0x00, 0x039E), Entry(0x1B, 0x0A, 0x000C),
    Entry(0x1B, 0x14, 0x005E), Entry(0x1B, 0x28, 0x007B), Entry(0x1B, 0x29, 0x007D), Entry(0x1B, 0x2F, 0x005C)]

  const ROW2: seq<Entry> := [
    Entry(0x1B, 0x3C, 0x005B), Entry(0x1B, 0x3D, 0x007E), Entry(0x1B, 0x3E, 0x005D), Entry(0x1B, 0x40, 0x007C),
    Entry(0x1B, 0x65, 0x20AC), Entry(0x1C, 0x00, 0x00C6), Entry(0x1D, 0x00, 0x00E6), Entry(0x1E, 0x00, 0x00DF),
    Entry(0x1F, 0x00, 0x00C9), Entry(0x20, 0x00, 0x0020), Entry(0x21, 0x00, 0x0021), Entry(0x22, 0x00, 0x0022),
    Entry(0x23, 0x00, 0x0023), Entry(0x24, 0x00, 0x00A4), Entry(0x25, 0x00, 0x0025), Entry(0x26, 0x00, 0x0026)]

  const ROW3: seq<Entry> := [
    Entry(0x27, 0x00, 0x0027), Entry(0x28, 0x00, 0x0028), Entry(0x29, 0x00, 0x0029), Entry(0x2A, 0x00, 0x002A),
    Entry(0x2B, 0x00, 0x002B), Entry(0x2C, 0x00, 0x002C), Entry(0x2D, 0x00, 0x002D), Entry(0x2E, 0x00, 0x002E),
    Entry(0x2F, 0x00, 0x002F), Entry(0x30, 0x00, 0x0030), Entry(0x31, 0x00, 0x0031), Entry(0x32, 0x00, 0x0032),
    Entry(0x33, 0x00, 0x0033), Entry(0x34, 0x00, 0x0034), Entry(0x35, 0x00, 0x0035), Entry(0x36, 0x00, 0x0036)]

  const ROW4: seq<Entry> := [
    Entry(0x37, 0x00, 0x0037), Entry(0x38, 0x00, 0x0038), Entry(0x39, 0x00, 0x0039), Entry(0x3A, 0x00, 0x003A),
    Entry(0x3B, 0x00, 0x003B), Entry(0x3C, 0x00, 0x003C), Entry(0x3D, 0x00, 0x003D), Entry(0x3E, 0x00, 0x003E),
    Entry(0x3F, 0x00, 0x003F), Entry(0x40, 0x00, 0x00A1), Entry(0x41, 0x00, 0x0041), Entry(0x42, 0x00, 0x0042),
    Entry(0x43, 0x00, 0x0043), Entry(0x44, 0x00, 0x0044), Entry(0x45, 0x00, 0x0045), Entry(0x46, 0x00, 0x0046)]

  const ROW5: seq<Entry> := [
    Entry(0x47, 0x00, 0x0047), Entry(0x48, 0x00, 0x0048), Entry(0x49, 0x00, 0x0049), Entry(0x4A, 0x00, 0x004A),
    Entry(0x4B, 0x00, 0x004B), Entry(0x4C, 0x00, 0x004C), Entry(0x4D, 0x00, 0x004D), Entry(0x4E, 0x00, 0x004E),
    Entry(0x4F, 0x00, 0x004F), Entry(0x50, 0x00, 0x0050), Entry(0x51, 0x00, 0x0051), Entry(0x52, 0x00, 0x0052),
    Entry(0x53, 0x00, 0x0053), Entry(0x54, 0x00, 0x0054), Entry(0x55, 0x00, 0x0055), Entry(0x56, 0x00, 0x0056)]

  const ROW6: seq<Entry> := [
    Entry(0x57, 0x00, 0x0057), Entry(0x58, 0x00, 0x0058), Entry(0x59, 0x00, 0x0059), Entry(0x5A, 0x00, 0x005A),
    Entry(0x5B, 0x00, 0x00C4), Entry(0x5C, 0x00, 0x00D6), Entry(0x5D, 0x00, 0x00D1), Entry(0x5E, 0x00, 0x00DC),
    Entry(0x5F, 0x00, 0x00A7), Entry(0x60, 0x00, 0x00BF), Entry(0x61, 0x00, 0x0061), Entry(0x62, 0x00, 0x0062),
    Entry(0x63, 0x00, 0x0063), Entry(0x64, 0x00, 0x0064), Entry(0x65, 0x00, 0x0065), Entry(0x66, 0x00, 0x0066)]

  const ROW7: seq<Entry> := [
    Entry(0x67, 0x00, 0x0067), Entry(0x68, 0x00, 0x0068), Entry(0x69, 0x00, 0x0069), Entry(0x6A, 0x00, 0x006A),
    Entry(0x6B, 0x00, 0x006B), Entry(0x6C, 0x00, 0x006C), Entry(0x6D, 0x00, 0x006D), Entry(0x6E, 0x00, 0x006E),
    Entry(0x6F, 0x00, 0x006F), Entry(0x70, 0x00, 0x0070), Entry(0x71, 0x00, 0x0071), Entry(0x72, 0x00, 0x0072),
    Entry(0x73, 0x00, 0x0073), Entry(0x74, 0x00, 0x0074), Entry(0x75, 0x00, 0x0075), Entry(0x76, 0x00, 0x0076)]

  const ROW8: seq<Entry> := [
    Entry(0x77, 0x00, 0x0077), Entry(0x78, 0x00, 0x0078), Entry(0x79, 0x00, 0x0079), Entry(0x7A, 0x00, 0x007A),
    Entry(0x7B, 0x00, 0x00E4), Entry(0x7C, 0x00, 0x00F6), Entry(0x7D, 0x00, 0x00F1), Entry(0x7E, 0x00, 0x00FC),
    Entry(0x7F, 0x00, 0x00E0)]

  function Table(): (t: seq<Entry>)
    ensures IsGsmTable(t)
  {
    RowsInOrder();
    ROW0 + ROW1 + ROW2 + ROW3 + ROW4 + ROW5 + ROW6 + ROW7 + ROW8
  }

  /** The first entry at or after `from` for a wide character, |t| when there is none. */
  function FindWide(t: seq<Entry>, wc: int, from: nat): (i: nat)
    requires from <= |t|
    ensures from <= i <= |t|
    ensures i < |t| ==> t[i].wc == wc
    ensures forall j :: from <= j < i ==> t[j].wc != wc
    decreases |t| - from
  {
    if from == |t| || t[from].wc == wc then from else FindWide(t, wc, from + 1)
  }

  function FindGsm(t: seq<Entry>, c: nat, from: nat): (i: nat)
    requires from <= |t|
    ensures from <= i <= |t|
    ensures i < |t| ==> t[i].c == c
    ensures forall j :: from <= j < i ==> t[j].c != c
    decreases |t| - from
  {
    if from == |t| || t[from].c == c then from else FindGsm(t, c, from + 1)
  }

  /** A table column as an octet. */
  function Code(n: nat): octet { n % 256 }

  lemma CodeValue(n: nat)
    requires n < 128
    ensures Code(n) == n && IsSeptet(Code(n))
  {
  }

  /** The septets of a character: none, one, or the escape and one more. */
  function Septets(t: seq<Entry>, wc: int): (cs: seq<octet>)
    ensures |cs| <= 2
  {
    var i := FindWide(t, wc, 0);
    if i == |t| then []
    else if t[i].c2 != 0 then [Code(t[i].c), Code(t[i].c2)]
    else [Code(t[i].c)]
  }

  /** The character of one septet, 0 when there is none. */
  function Wide(t: seq<Entry>, c: octet): int
  {
    var i := FindGsm(t, c, 0);
    if i == |t| then 0 else t[i].wc
  }

  predicate IsTranslatable(t: seq<Entry>, wc: int) { Septets(t, wc) != [] }

  predicate IsBasic(t: seq<Entry>, wc: int) { |Septets(t, wc)| == 1 }

  method GsmToWide(t: seq<Entry>, c: octet) returns (wc: int)
    ensures wc == Wide(t, c)
  {
    var i := 0;
    while i < |t|
      invariant i <= |t|
      invariant FindGsm(t, c, 0) == FindGsm(t, c, i)
    {
      if t[i].c == c { return t[i].wc; }
      i := i + 1;
    }
    return 0;
  }

  method WideToGsm(t: seq<Entry>, wc: int) returns (n: nat, c: octet, c2: octet)
    ensures Septets(t, wc) == if n == 0 then [] else if n == 1 then [c] else [c, c2]
    ensures n <= 2
  {
    var i := 0;
    while i < |t|
      invariant i <= |t|
      invariant FindWide(t, wc, 0) == FindWide(t, wc, i)
    {
      if t[i].wc == wc {
        if t[i].c2 != 0 { return 2, Code(t[i].c), Code(t[i].c2); }
        return 1, Code(t[i].c), 0;
      }
      i := i + 1;
    }
    return 0, 0, 0;
  }

  /** The first column is 0 to 0x1A, the escape for the characters with a second septet, 0x1C to 0x7F. */
  ghost predicate InOrder(e: Entry, i: nat)
  {
    && e.c == (if i < 27 then i else if i < 37 then ESCAPE else i - 9)
    && (e.c2 != 0 <==> 27 <= i < 37)
    && e.c2 < 128
  }

  ghost predicate IsGsmTable(t: seq<Entry>)
  {
    |t| == ENTRIES && forall i :: 0 <= i < |t| ==> InOrder(t[i], i)
  }

  ghost predicate RowInOrder(row: seq<Entry>, from: nat)
  {
    forall k :: 0 <= k < |row| ==> InOrder(row[k], from + k)
  }

  lemma Row0()
    ensures |ROW0| == 16 && RowInOrder(ROW0, 0)
  {
  }

  lemma Row1()
    ensures |ROW1| == 16 && RowInOrder(ROW1, 16)
  {
  }

  lemma Row2()
    ensures |ROW2| == 16 && RowInOrder(ROW2, 32)
  {
  }

  lemma Row3()
    ensures |ROW3| == 16 && RowInOrder(ROW3, 48)
  {
  }

  lemma Row4()
    ensures |ROW4| == 16 && RowInOrder(ROW4, 64)
  {
  }

  lemma Row5()
    ensures |ROW5| == 16 && RowInOrder(ROW5, 80)
  {
  }

  lemma Row6()
    ensures |ROW6| == 16 && RowInOrder(ROW6, 96)
  {
  }

  lemma Row7()
    ensures |ROW7| == 16 && RowInOrder(ROW7, 112)
  {
  }

  lemma Row8()
    ensures |ROW8| == 9 && RowInOrder(ROW8, 128)
  {
  }

  lemma RowsInOrder()
    ensures IsGsmTable(ROW0 + ROW1 + ROW2 + ROW3 + ROW4 + ROW5 + ROW6 + ROW7 + ROW8)
  {
    Row0(); Row1(); Row2(); Row3(); Row4(); Row5(); Row6(); Row7(); Row8();
    Append(ROW0, ROW1, 0);
    Append(ROW0 + ROW1, ROW2, 0);
    Append(ROW0 + ROW1 + ROW2, ROW3, 0);
    Append(ROW0 + ROW1 + ROW2 + ROW3, ROW4, 0);
    Append(ROW0 + ROW1 + ROW2 + ROW3 + ROW4, ROW5, 0);
    Append(ROW0 + ROW1 + ROW2 + ROW3 + ROW4 + ROW5, ROW6, 0);
    Append(ROW0 + ROW1 + ROW2 + ROW3 + ROW4 + ROW5 + ROW6, ROW7, 0);
    Append(ROW0 + ROW1 + ROW2 + ROW3 + ROW4 + ROW5 + ROW6 + ROW7, ROW8, 0);
    var t := ROW0 + ROW1 + ROW2 + ROW3 + ROW4 + ROW5 + ROW6 + ROW7 + ROW8;
    forall i | 0 <= i < |t| ensures InOrder(t[i], i) { assert InOrder(t[i], 0 + i); }
  }

  lemma Append(a: seq<Entry>, b: seq<Entry>, from: nat)
    requires RowInOrder(a, from) && RowInOrder(b, from + |a|)
    ensures RowInOrder(a + b, from)
  {
  }

  lemma SeptetsInRange(t: seq<Entry>, wc: int)
    requires IsGsmTable(t)
    ensures AreSeptets(Septets(t, wc))
    ensures |Septets(t, wc)| == 2 ==> Septets(t, wc)[0] == Code(ESCAPE)
  {
    var i := FindWide(t, wc, 0);
    if i < |t| {
      CodeValue(t[i].c);
      CodeValue(t[i].c2);
    }
  }

  /** Decoding the septet of a basic character gives the character back. */
  lemma BasicRoundTrip(t: seq<Entry>, wc: int)
    requires IsGsmTable(t) && IsBasic(t, wc)
    ensures Wide(t, Septets(t, wc)[0]) == wc
  {
    var i := FindWide(t, wc, 0);
    CodeValue(t[i].c);
    assert FindGsm(t, t[i].c, 0) == i;
  }

  // ---------------------------------------------------------------- no character twice

  function PlaceAscii(wc: int): int
  {
    match wc
    case 0x0040 => 0
    case 0x0024 => 2
    case 0x000A => 10
    case 0x000D => 13
    case 0x005F => 17
    case 0x000C => 27
    case 0x005E => 28
    case 0x007B => 29
    case 0x007D => 30
    case 0x005C => 31
    case 0x005B => 32
    case 0x007E => 33
    case 0x005D => 34
    case 0x007C => 35
    case _ => -1
  }

  function PlaceLatin(wc: int): int
  {
    match wc
    case 0x00A3 => 1
    case 0x00A5 => 3
    case 0x00C7 => 9
    case 0x00C5 => 14
    case 0x00C6 => 37
    case 0x00C9 => 40
    case 0x00A4 => 45
    case 0x00A1 => 73
    case 0x00C4 => 100
    case 0x00D6 => 101
    case 0x00D1 => 102
    case 0x00A7 => 104
    case 0x00BF => 105
    case _ => -1
  }

  function PlaceAccented(wc: int): int
  {
    match wc
    case 0x00E8 => 4
    case 0x00E9 => 5
    case 0x00F9 => 6
    case 0x00EC => 7
    case 0x00F2 => 8
    case 0x00D8 => 11
    case 0x00F8 => 12
    case 0x00E5 => 15
    case 0x00E6 => 38
    case 0x00DF => 39
    case 0x00DC => 103
    case 0x00E4 => 132
    case 0x00F6 => 133
    case 0x00F1 => 134
    case 0x00FC => 135
    case 0x00E0 => 136
    case _ => -1
  }

  function PlaceOther(wc: int): int
  {
    match wc
    case 0x0394 => 16
    case 0x03A6 => 18
    case 0x0393 => 19
    case 0x039B => 20
    case 0x03A9 => 21
    case 0x03A0 => 22
    case 0x03A8 => 23
    case 0x03A3 => 24
    case 0x0398 => 25
    case 0x039E => 26
    case 0x20AC => 36
    case _ => -1
  }

  /** Where a wide character is in the table. */
  function Place(wc: int): int
  {
    if 0x20 <= wc <= 0x23 || 0x25 <= wc <= 0x3F || 0x41 <= wc <= 0x5A || 0x61 <= wc <= 0x7A then wc + 9
    else if wc < 0x80 then PlaceAscii(wc)
    else if wc < 0xD8 then PlaceLatin(wc)
    else if wc < 0x100 then PlaceAccented(wc)
    else PlaceOther(wc)
  }

  ghost predicate RowPlaced(row: seq<Entry>, from: nat)
  {
    forall k :: 0 <= k < |row| ==> Place(row[k].wc) == from + k
  }

  lemma Placed0()
    ensures |ROW0| == 16 && RowPlaced(ROW0, 0)
  {
  }

  lemma Placed1()
    ensures |ROW1| == 16 && RowPlaced(ROW1, 16)
  {
  }

  lemma Placed2()
    ensures |ROW2| == 16 && RowPlaced(ROW2, 32)
  {
  }

  lemma Placed3()
    ensures |ROW3| == 16 && RowPlaced(ROW3, 48)
  {
  }

  lemma Placed4()
    ensures |ROW4| == 16 && RowPlaced(ROW4, 64)
  {
  }

  lemma Placed5()
    ensures |ROW5| == 16 && RowPlaced(ROW5, 80)
  {
  }

  lemma Placed6()
    ensures |ROW6| == 16 && RowPlaced(ROW6, 96)
  {
  }

  lemma Placed7()
    ensures |ROW7| == 16 && RowPlaced(ROW7, 112)
  {
  }

  lemma Placed8()
    ensures |ROW8| == 9 && RowPlaced(ROW8, 128)
  {
  }

  lemma AppendPlaced(a: seq<Entry>, b: seq<Entry>)
    requires RowPlaced(a, 0) && RowPlaced(b, |a|)
    ensures RowPlaced(a + b, 0)
  {
    forall k | 0 <= k < |a + b| ensures Place((a + b)[k].wc) == k {
      if k >= |a| { assert (a + b)[k] == b[k - |a|]; } else { assert (a + b)[k] == a[k]; }
    }
  }

  ghost predicate OneToOne(t: seq<Entry>)
  {
    forall i, j :: 0 <= i < |t| && 0 <= j < |t| && t[i].wc == t[j].wc ==> i == j
  }

  lemma TablePlaced()
    ensures RowPlaced(Table(), 0)
  {
    Placed0(); Placed1(); Placed2(); Placed3(); Placed4(); Placed5(); Placed6(); Placed7(); Placed8();
    AppendPlaced(ROW0, ROW1);
    AppendPlaced(ROW0 + ROW1, ROW2);
    AppendPlaced(ROW0 + ROW1 + ROW2, ROW3);
    AppendPlaced(ROW0 + ROW1 + ROW2 + ROW3, ROW4);
    AppendPlaced(ROW0 + ROW1 + ROW2 + ROW3 + ROW4, ROW5);
    AppendPlaced(ROW0 + ROW1 + ROW2 + ROW3 + ROW4 + ROW5, ROW6);
    AppendPlaced(ROW0 + ROW1 + ROW2 + ROW3 + ROW4 + ROW5 + ROW6, ROW7);
    AppendPlaced(ROW0 + ROW1 + ROW2 + ROW3 + ROW4 + ROW5 + ROW6 + ROW7, ROW8);
  }

  lemma PlacedIsOneToOne(t: seq<Entry>)
    requires RowPlaced(t, 0)
    ensures OneToOne(t)
  {
    forall i, j | 0 <= i < |t| && 0 <= j < |t| && t[i].wc == t[j].wc ensures i == j {
      assert Place(t[i].wc) == 0 + i && Place(t[j].wc) == 0 + j;
    }
  }

  /** No wide character of the table is there twice. */
  lemma TableOneToOne()
    ensures OneToOne(Table())
  {
    TablePlaced();
    PlacedIsOneToOne(Table());
  }

  /** The entry that a wide character finds is its own. */
  lemma FindOwn(t: seq<Entry>, i: nat)
    requires OneToOne(t) && i < |t|
    ensures FindWide(t, t[i].wc, 0) == i
  {
  }

  /** Every septet but the escape is the code of the character it decodes to. */
  lemma SeptetIsOwnCode(t: seq<Entry>, c: octet)
    requires IsGsmTable(t) && OneToOne(t) && IsSeptet(c) && c != ESCAPE
    ensures Septets(t, Wide(t, c)) == [c]
  {
    var i := if c < ESCAPE then c else c + 9;
    assert InOrder(t[i], i);
    assert forall j :: 0 <= j < i ==> InOrder(t[j], j) && t[j].c != c;
    assert FindGsm(t, c, 0) == i;
    FindOwn(t, i);
    CodeValue(c);
  }

  lemma PrefixAt(a: seq<Entry>, b: seq<Entry>, k: nat)
    requires k < |a|
    ensures (a + b)[k] == a[k]
  {
  }

  lemma SuffixAt(a: seq<Entry>, b: seq<Entry>, k: nat)
    requires k < |b|
    ensures (a + b)[|a| + k] == b[k]
  {
  }

  lemma EuroEntry()
    ensures Table()[36] == Entry(ESCAPE, 0x65, 0x20AC)
  {
    Placed0();
    Placed1();
    SuffixAt(ROW0 + ROW1, ROW2, 4);
    var t := ROW0 + ROW1 + ROW2;
    PrefixAt(t, ROW3, 36);
    PrefixAt(t + ROW3, ROW4, 36);
    PrefixAt(t + ROW3 + ROW4, ROW5, 36);
    PrefixAt(t + ROW3 + ROW4 + ROW5, ROW6, 36);
    PrefixAt(t + ROW3 + ROW4 + ROW5 + ROW6, ROW7, 36);
    PrefixAt(t + ROW3 + ROW4 + ROW5 + ROW6 + ROW7, ROW8, 36);
  }

  /** The euro sign is an escaped character of the table. */
  lemma EuroIsEscaped()
    ensures Septets(Table(), 0x20AC) == [ESCAPE, 0x65]
  {
    TableOneToOne();
    EuroEntry();
    FindOwn(Table(), 36);
  }

  lemma AtSignEntry()
    ensures Table()[0] == Entry(0, 0, 0x0040)
  {
    PrefixAt(ROW0, ROW1, 0);
    PrefixAt(ROW0 + ROW1, ROW2, 0);
    PrefixAt(ROW0 + ROW1 + ROW2, ROW3, 0);
    PrefixAt(ROW0 + ROW1 + ROW2 + ROW3, ROW4, 0);
    PrefixAt(ROW0 + ROW1 + ROW2 + ROW3 + ROW4, ROW5, 0);
    PrefixAt(ROW0 + ROW1 + ROW2 + ROW3 + ROW4 + ROW5, ROW6, 0);
    PrefixAt(ROW0 + ROW1 + ROW2 + ROW3 + ROW4 + ROW5 + ROW6, ROW7, 0);
    PrefixAt(ROW0 + ROW1 + ROW2 + ROW3 + ROW4 + ROW5 + ROW6 + ROW7, ROW8, 0);
  }

  /** The commercial at is a basic character of the table. */
  lemma AtSignIsBasic()
    ensures Septets(Table(), 0x40) == [0]
  {
    AtSignEntry();
    assert FindWide(Table(), 0x40, 0) == 0;
  }
}
