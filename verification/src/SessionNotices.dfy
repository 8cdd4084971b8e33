/**
 What a modem says without being asked, to an idle session or to one that awaits an echo: single lines, codes of several
 lines, and characters that belong to neither.
 */
module SessionNotices {
  import opened Text
  import opened Session
  import opened SessionChunking
  import opened SessionMemory
  import opened SessionReads
  import opened SessionTurns

  /** Characters that start nothing, or a line: what is in front of it, the line, and the further lines of its code. */
  datatype Notice = Noise(text: string) | Said(opening: string, first: string, more: seq<string>)

  function Ended(lines: seq<string>): string
  {
    if lines == [] then "" else lines[0] + CRLF + Ended(lines[1..])
  }

  function NoticeText(n: Notice): string
  {
    match n
    case Noise(text) => text
    case Said(opening, first, more) => opening + (first + CRLF) + Ended(more)
  }

  function Texts(ns: seq<Notice>): string { if ns == [] then "" else NoticeText(ns[0]) + Texts(ns[1..]) }

  ghost predicate NoCrLf(line: string) { forall k :: !CrLfAt(line, k) }

  /** The character at i starts no line, whatever follows. */
  ghost predicate IsJunk(b: string, i: nat)
    requires i < |b|
  {
    && b[i] != '+' && b[i] != '^'
    && (b[i] == '\r' ==>
          || (i + 1 < |b| && b[i + 1] != '\n')
          || (i + 3 < |b| && b[i + 1] == '\n' && b[i + 2] == '\r' && b[i + 3] != '\n'))
  }

  /** A line may start after CR LF, after CR LF CR LF, or at once with '+' or '^'. */
  ghost predicate Opens(opening: string, first: string)
  {
    || (opening == CRLF && first != "" && first[0] != '\r')
    || opening == CRLF + CRLF
    || (opening == "" && first != "" && (first[0] == '+' || first[0] == '^'))
  }

  /** The code of a class that has several lines is whole with the last of them, and not before. */
  ghost predicate IsWhole(cls: UrcClass, first: string, more: seq<string>)
  {
    && more != [] && cls.ends([first] + more)
    && forall k :: 0 < k < |more| ==> !cls.ends([first] + more[..k])
  }

  ghost predicate IsNotice(cs: seq<UrcClass>, n: Notice)
  {
    match n
    case Noise(text) => forall i :: 0 <= i < |text| ==> IsJunk(text, i)
    case Said(opening, first, more) =>
      && Opens(opening, first) && NoCrLf(first) && (forall k :: 0 <= k < |more| ==> NoCrLf(more[k]))
      && match ClassOf(cs, first, 0)
         case None => more == []
         case Some(c) => if cs[c].multiline then IsWhole(cs[c], first, more) else more == []
  }

  ghost predicate AllNotices(cs: seq<UrcClass>, ns: seq<Notice>)
  {
    forall k :: 0 <= k < |ns| ==> IsNotice(cs, ns[k])
  }

  /** The code that a notice is: one of the first class that its first line starts with the code of. */
  function KnownOne(cs: seq<UrcClass>, n: Notice): seq<Urc>
  {
    match n
    case Noise(_) => []
    case Said(_, first, more) =>
      match ClassOf(cs, first, 0)
      case None => []
      case Some(c) => [Urc(c, [first] + more, 1)]
  }

  function Known(cs: seq<UrcClass>, ns: seq<Notice>): seq<Urc>
  {
    if ns == [] then [] else KnownOne(cs, ns[0]) + Known(cs, ns[1..])
  }

  function Numbers(from: nat, n: nat): seq<nat> { seq(n, k requires k >= 0 => from + k) }

  /** The session with these codes queued for the handler thread, once each and in order. */
  function WithCodes(s: Session, us: seq<Urc>): (t: Session)
    ensures t.reqs == s.reqs
  {
    var ids := Numbers(|s.urcs|, |us|);
    s.(urcs := s.urcs + us, urcQueue := s.urcQueue + ids, delivered := s.delivered + ids)
  }

  /** The same, with the echo timer started again for them if an echo is awaited. */
  function Told(s: Session, us: seq<Urc>): Session
  {
    WithCodes(s, us).(timer := if s.state == AwaitingEcho && us != [] then Some(ECHO_TIMEOUT) else s.timer)
  }

  lemma ToldMore(s: Session, us: seq<Urc>, vs: seq<Urc>)
    ensures Told(Told(s, us), vs) == Told(s, us + vs)
    ensures Told(s, []) == s
  {
    assert Numbers(|s.urcs|, |us|) + Numbers(|s.urcs| + |us|, |vs|) == Numbers(|s.urcs|, |us + vs|);
    assert s.urcs + us + vs == s.urcs + (us + vs);
    assert s.urcQueue + Numbers(|s.urcs|, 0) == s.urcQueue && s.delivered + Numbers(|s.urcs|, 0) == s.delivered;
  }

  /** A session that hears notices. */
  ghost predicate Hears(cs: seq<UrcClass>, s: Session)
  {
    Owned(cs, s) && s.buf == "" && (s.state == Idle || s.state == AwaitingEcho)
  }

  /** No character of junk, and no line, can be taken for the start of the echo that is awaited. */
  ghost predicate NotEcho(s: Session, n: Notice)
  {
    s.state == AwaitingEcho ==>
      && s.current.Some? && s.current.value < |s.reqs| && s.reqs[s.current.value].text != ""
      && (if n.Noise? then s.reqs[s.current.value].text[0] !in n.text
          else NoticeText(n) != "" && NoticeText(n)[0] != s.reqs[s.current.value].text[0])
  }

  lemma NoEcho(b: string, sent: string)
    requires b != "" && sent != "" && b[0] != sent[0]
    ensures MatchEcho(b, sent) < 0
  {
  }

  /** What cannot be an echo is matched as a notice. */
  lemma MatchedAsUrc(cs: seq<UrcClass>, s: Session, b: string)
    requires Hears(cs, s) && Owned(cs, Fed(s, b)) && b != ""
    requires s.state == AwaitingEcho ==> s.reqs[s.current.value].text[0] != b[0]
    ensures Match(cs, Fed(s, b)) == MatchUrc(cs, Fed(s, b)) && Fed(s, b).buf == b
  {
    hide MatchUrc, MatchEcho;
    assert Fed(s, b).buf == b;
    if s.state == AwaitingEcho { NoEcho(b, s.reqs[s.current.value].text); }
  }

  // ---------------------------------------------------------------- junk

  lemma JunkScanned(b: string)
    requires b != "" && IsJunk(b, 0)
    ensures ScanUrc(b) == UrcScan.Junk
  {
  }

  lemma JunkFirst(text: string, rest: string)
    requires text != "" && forall i :: 0 <= i < |text| ==> IsJunk(text, i)
    ensures IsJunk(text + rest, 0)
    ensures forall i :: 0 <= i < |text[1..]| ==> IsJunk(text[1..], i)
  {
    assert forall i :: 0 <= i < |text| ==> (text + rest)[i] == text[i];
    assert IsJunk(text, 0);
    forall i | 0 <= i < |text[1..]| ensures IsJunk(text[1..], i) {
      assert IsJunk(text, i + 1);
      assert forall j :: 0 <= j < |text| - 1 ==> text[1..][j] == text[j + 1];
    }
  }

  lemma JunkTurn(cs: seq<UrcClass>, s: Session, c: char, rest: string)
    requires Hears(cs, s) && Ready(cs, s, [c] + rest) && IsJunk([c] + rest, 0)
    requires s.state == AwaitingEcho ==> s.reqs[s.current.value].text[0] != c
    ensures Passes(cs, s, [c], s, rest)
  {
    hide ScanUrc, MatchEcho, Match;
    FedReady(cs, s, [c], rest);
    MatchedAsUrc(cs, s, [c] + rest);
    JunkScanned([c] + rest);
    TakesPlainTurn(cs, s, [c], s, rest);
  }

  /** Junk is dropped a character at a time. */
  lemma {:induction false} JunkPasses(cs: seq<UrcClass>, s: Session, text: string, rest: string)
    requires Hears(cs, s) && Ready(cs, s, text + rest) && NotEcho(s, Noise(text))
    requires forall i :: 0 <= i < |text| ==> IsJunk(text, i)
    ensures Passes(cs, s, text, s, rest)
    decreases |text|
  {
    hide IsJunk, Passes, Owned;
    if text == "" {
      assert "" + rest == rest;
      PassesNothing(cs, s, rest);
    } else {
      var c, t := text[0], text[1..];
      JunkFirst(text, rest);
      assert text + rest == [c] + (t + rest) && text == [c] + t;
      assert c in text && forall d :: d in t ==> d in text;
      JunkTurn(cs, s, c, t + rest);
      FedReady(cs, s, [c], t + rest);
      JunkPasses(cs, s, t, rest);
      PassesBoth(cs, s, [c], s, t, s, rest);
    }
  }

  // ---------------------------------------------------------------- lines

  lemma LineEndFound(x: string, line: string, rest: string)
    requires NoCrLf(line)
    ensures var b := x + (line + CRLF) + rest;
      var r := FindCrLf(b, |x|); r.Some? && r.value == |x| + |line| && b[|x|..|x| + |line|] == line
  {
    var b := x + (line + CRLF) + rest;
    NoneInside(b, x, line, rest);
    LineEnds(b, x, line, rest);
    FoundFirst(b, |x|, |x| + |line|);
  }

  lemma LineEnds(b: string, x: string, line: string, rest: string)
    requires b == x + (line + CRLF) + rest
    ensures CrLfAt(b, |x| + |line|) && b[|x|..|x| + |line|] == line
  {
    assert b == (x + line) + (CRLF + rest);
    assert (CRLF + rest)[0] == '\r' && (CRLF + rest)[1] == '\n';
    assert b[..|x| + |line|] == x + line;
  }

  lemma NoneInside(b: string, x: string, line: string, rest: string)
    requires b == x + (line + CRLF) + rest && NoCrLf(line)
    ensures forall i :: |x| <= i < |x| + |line| ==> !CrLfAt(b, i)
  {
    hide NoCrLf, CrLfAt;
    forall i | |x| <= i < |x| + |line| ensures !CrLfAt(b, i) { NotInside(b, x, line, rest, i); }
  }

  lemma NotInside(b: string, x: string, line: string, rest: string, i: nat)
    requires b == x + (line + CRLF) + rest && NoCrLf(line) && |x| <= i < |x| + |line|
    ensures !CrLfAt(b, i)
  {
    hide NoCrLf;
    var k := i - |x|;
    NotThere(line, k);
    var l := line + CRLF;
    assert b[i] == l[k] == line[k] && b[i + 1] == l[k + 1];
    if k + 1 < |line| { assert l[k + 1] == line[k + 1]; }
  }

  lemma NotThere(line: string, k: int)
    requires NoCrLf(line)
    ensures !CrLfAt(line, k)
  {
  }

  lemma FoundFirst(b: string, from: nat, e: nat)
    requires from <= e && CrLfAt(b, e) && forall i :: from <= i < e ==> !CrLfAt(b, i)
    ensures from <= |b| && FindCrLf(b, from).Some? && FindCrLf(b, from).value == e
  {
  }

  lemma FirstScanned(opening: string, first: string, rest: string)
    requires Opens(opening, first) && NoCrLf(first)
    ensures ScanUrc(opening + (first + CRLF) + rest) == UrcLine(first, |opening| + |first|)
  {
    var b := opening + (first + CRLF) + rest;
    LineEndFound(opening, first, rest);
    assert forall k :: 0 <= k < |opening| ==> b[k] == opening[k];
    if opening != CRLF + CRLF { assert b[|opening|] == first[0]; }
    assert UrcBegin(b) == Some(|opening|);
  }

  /** A line of no class is dropped; one of a class is the start of its code. */
  function AfterFirst(cs: seq<UrcClass>, s: Session, first: string): Session
    requires Hears(cs, s)
  {
    match ClassOf(cs, first, 0)
    case None => s
    case Some(c) => StartUrc(cs, s, c, first)
  }

  lemma FirstTurn(cs: seq<UrcClass>, s: Session, opening: string, first: string, rest: string)
    requires Hears(cs, s) && Ready(cs, s, opening + (first + CRLF) + rest)
    requires Opens(opening, first) && NoCrLf(first)
    requires s.state == AwaitingEcho ==> s.reqs[s.current.value].text[0] != (opening + (first + CRLF))[0]
    ensures Passes(cs, s, opening + (first + CRLF), AfterFirst(cs, s, first), rest)
  {
    hide ScanUrc, MatchEcho, Match, MatchUrc, AfterFirst, Passes, Owned, Opens, NoCrLf;
    var x, t := opening + (first + CRLF), AfterFirst(cs, s, first);
    FedReady(cs, s, x, rest);
    MatchedAsUrc(cs, s, x + rest);
    FirstScanned(opening, first, rest);
    FirstMatched(cs, s, first, x + rest, |opening| + |first|);
    TakesPlainTurn(cs, s, x, t, rest);
  }

  lemma FirstMatched(cs: seq<UrcClass>, s: Session, first: string, b: string, e: nat)
    requires Hears(cs, s) && Owned(cs, Fed(s, b)) && Fed(s, b).buf == b && ScanUrc(b) == UrcLine(first, e)
    ensures var t := AfterFirst(cs, s, first);
      Owned(cs, t) && t.buf == "" && LiveWithInput(t.state) && MatchUrc(cs, Fed(s, b)) == (Fed(t, b), e + 2)
  {
    hide ScanUrc, StartUrc, ClassOf, Owned;
    var c := ClassOf(cs, first, 0);
    if c.Some? { StartUrcExtends(cs, s, c.value, first, b); }
  }

  lemma SingleLine(cs: seq<UrcClass>, s: Session, c: nat, line: string)
    requires Hears(cs, s) && c < |cs| && !cs[c].multiline
    ensures StartUrc(cs, s, c, line) == Told(s, [Urc(c, [line], 1)])
  {
    hide Owned;
    assert Numbers(|s.urcs|, 1) == [|s.urcs|];
  }

  // ---------------------------------------------------------------- codes of several lines

  /** While the lines ls of a code of class c are there and more are to come. */
  function Collecting(s: Session, c: nat, ls: seq<string>): Session
  {
    s.(state := if s.state == AwaitingEcho then AwaitingEchoReadingUrc else ReadingUrc,
       urcs := s.urcs + [Urc(c, ls, 1)], currentUrc := Some(|s.urcs|),
       timer := Some(if s.state == AwaitingEcho && |ls| > 1 then ECHO_TIMEOUT else URC_TIMEOUT))
  }

  lemma CodeStarts(cs: seq<UrcClass>, s: Session, c: nat, line: string)
    requires Hears(cs, s) && c < |cs| && cs[c].multiline
    ensures StartUrc(cs, s, c, line) == Collecting(s, c, [line])
  {
    hide Owned;
  }

  lemma LineAdded(us: seq<Urc>, c: nat, ls: seq<string>, line: string)
    ensures (us + [Urc(c, ls, 1)])[|us| := Urc(c, ls + [line], 1)] == us + [Urc(c, ls + [line], 1)]
  {
  }

  /** A further line is added to its code, which is queued when it is whole. */
  lemma CodeGoesOn(cs: seq<UrcClass>, s: Session, c: nat, ls: seq<string>, line: string)
    requires Hears(cs, s) && c < |cs| && ls != [] && Owned(cs, Collecting(s, c, ls))
    ensures MoreUrc(cs, Collecting(s, c, ls), line)
         == if cs[c].ends(ls + [line]) then Told(s, [Urc(c, ls + [line], 1)]) else Collecting(s, c, ls + [line])
  {
    hide Sendable;
    LineAdded(s.urcs, c, ls, line);
    assert Numbers(|s.urcs|, 1) == [|s.urcs|];
    assert s.timer == None || s.state == AwaitingEcho;
    assert s.currentUrc == None;
  }

  lemma MoreTurn(cs: seq<UrcClass>, t: Session, line: string, rest: string)
    requires InUrc(t.state) && Ready(cs, t, line + CRLF + rest) && NoCrLf(line)
    ensures Passes(cs, t, line + CRLF, MoreUrc(cs, t, line), rest)
  {
    hide MoreUrc, Passes, FindCrLf, Match, Owned, NoCrLf;
    var x := line + CRLF;
    FedReady(cs, t, x, rest);
    assert "" + (line + CRLF) + rest == x + rest;
    LineEndFound("", line, rest);
    MoreMatched(cs, t, line, x + rest);
    TakesPlainTurn(cs, t, x, MoreUrc(cs, t, line), rest);
  }

  lemma MoreMatched(cs: seq<UrcClass>, t: Session, line: string, b: string)
    requires InUrc(t.state) && Owned(cs, t) && Owned(cs, Fed(t, b)) && t.buf == ""
    requires FindCrLf(b, 0).Some? && FindCrLf(b, 0).value == |line| && b[..|line|] == line
    ensures Match(cs, Fed(t, b)) == (Fed(MoreUrc(cs, t, line), b), |line| + 2)
  {
    hide MoreUrc, FindCrLf, Owned, Match;
    assert Fed(t, b).buf == b;
    MatchedAsMore(cs, Fed(t, b));
    MoreExtends(cs, t, line, b);
  }

  lemma MatchedAsMore(cs: seq<UrcClass>, s: Session)
    requires Owned(cs, s) && InUrc(s.state)
    ensures Match(cs, s) == MatchUrcCont(cs, s)
  {
    hide MatchUrcCont, Owned;
  }

  lemma MoreExtends(cs: seq<UrcClass>, t: Session, line: string, b: string)
    requires Owned(cs, t) && Owned(cs, Fed(t, b)) && InUrc(t.state)
    ensures MoreUrc(cs, Fed(t, b), line) == Fed(MoreUrc(cs, t, line), b)
  {
    hide Sendable;
  }

  lemma LinesLeft(first: string, more: seq<string>, k: nat)
    requires k < |more|
    ensures [first] + more[..k] + [more[k]] == [first] + more[..k + 1]
    ensures Ended(more[k..]) == more[k] + CRLF + Ended(more[k + 1..])
  {
    assert more[..k + 1] == more[..k] + [more[k]];
    assert more[k..][1..] == more[k + 1..];
  }

  /** With the first k further lines there, the others come in. */
  lemma {:induction false} CodePasses(cs: seq<UrcClass>, s: Session, c: nat, first: string, more: seq<string>, k: nat,
                                      rest: string)
    requires Hears(cs, s) && c < |cs| && k < |more| && IsWhole(cs[c], first, more)
    requires forall j :: 0 <= j < |more| ==> NoCrLf(more[j])
    requires Ready(cs, Collecting(s, c, [first] + more[..k]), Ended(more[k..]) + rest)
    ensures Passes(cs, Collecting(s, c, [first] + more[..k]), Ended(more[k..]), Told(s, [Urc(c, [first] + more, 1)]),
                   rest)
    decreases |more| - k
  {
    hide Owned, Collecting, Told, MoreUrc, Passes, NoCrLf, Ended;
    CollectingIs(s, c, [first] + more[..k]);
    var ls := [first] + more[..k];
    var t, x := Collecting(s, c, ls), more[k] + CRLF;
    LinesLeft(first, more, k);
    assert Ended(more[k..]) + rest == x + (Ended(more[k + 1..]) + rest);
    MoreTurn(cs, t, more[k], Ended(more[k + 1..]) + rest);
    CodeGoesOn(cs, s, c, ls, more[k]);
    if k + 1 == |more| {
      assert more[..k + 1] == more;
      NothingLeft(more);
      assert x + Ended(more[k + 1..]) == x && Ended(more[k + 1..]) + rest == rest;
    } else {
      var u := Collecting(s, c, [first] + more[..k + 1]);
      PassesReady(cs, t, x, u, Ended(more[k + 1..]) + rest);
      CodePasses(cs, s, c, first, more, k + 1, rest);
      PassesBoth(cs, t, x, u, Ended(more[k + 1..]), Told(s, [Urc(c, [first] + more, 1)]), rest);
    }
  }

  lemma CollectingIs(s: Session, c: nat, ls: seq<string>)
    ensures InUrc(Collecting(s, c, ls).state)
  {
  }

  lemma NothingLeft(more: seq<string>)
    ensures Ended(more[|more|..]) == ""
  {
  }

  lemma PassesReady(cs: seq<UrcClass>, s: Session, x: string, t: Session, rest: string)
    requires Passes(cs, s, x, t, rest)
    ensures Ready(cs, t, rest)
  {
    hide Drain, Orderly;
  }

  // ---------------------------------------------------------------- any notices

  /** A notice queues the code that it is, if it is one, and leaves the session as it was otherwise. */
  lemma NoticePasses(cs: seq<UrcClass>, s: Session, n: Notice, rest: string)
    requires Hears(cs, s) && Ready(cs, s, NoticeText(n) + rest) && IsNotice(cs, n) && NotEcho(s, n)
    ensures Passes(cs, s, NoticeText(n), Told(s, KnownOne(cs, n)), rest)
  {
    hide Owned, Told, Passes, StartUrc, Collecting, Opens, NoCrLf, Ended, IsJunk;
    ToldMore(s, [], []);
    match n
    case Noise(text) => JunkPasses(cs, s, text, rest);
    case Said(opening, first, more) =>
      var x := opening + (first + CRLF);
      assert NoticeText(n) + rest == x + (Ended(more) + rest);
      assert x != "" && x[0] == NoticeText(n)[0];
      FirstTurn(cs, s, opening, first, Ended(more) + rest);
      match ClassOf(cs, first, 0) {
        case None =>
          NothingLeft(more);
          assert x + Ended(more) == x && Ended(more) + rest == rest;
        case Some(c) =>
          if cs[c].multiline {
            CodeStarts(cs, s, c, first);
            assert [first] + more[..0] == [first] && more[0..] == more;
            PassesReady(cs, s, x, Collecting(s, c, [first]), Ended(more) + rest);
            CodePasses(cs, s, c, first, more, 0, rest);
            PassesBoth(cs, s, x, Collecting(s, c, [first]), Ended(more), Told(s, [Urc(c, [first] + more, 1)]), rest);
          } else {
            SingleLine(cs, s, c, first);
            NothingLeft(more);
            assert x + Ended(more) == x && Ended(more) + rest == rest && [first] + more == [first];
          }
      }
  }

  lemma ToldHears(cs: seq<UrcClass>, s: Session, x: string, us: seq<Urc>, rest: string)
    requires Hears(cs, s) && Passes(cs, s, x, Told(s, us), rest)
    ensures Hears(cs, Told(s, us)) && Ready(cs, Told(s, us), rest)
    ensures Told(s, us).state == s.state && Told(s, us).reqs == s.reqs && Told(s, us).current == s.current
  {
    hide Drain, Orderly;
  }

  ghost predicate NoneIsEcho(s: Session, ns: seq<Notice>)
  {
    forall k :: 0 <= k < |ns| ==> NotEcho(s, ns[k])
  }

  lemma OtherNotices(cs: seq<UrcClass>, s: Session, t: Session, ns: seq<Notice>)
    requires AllNotices(cs, ns) && NoneIsEcho(s, ns) && ns != []
    requires t.state == s.state && t.reqs == s.reqs && t.current == s.current
    ensures IsNotice(cs, ns[0]) && NotEcho(s, ns[0]) && AllNotices(cs, ns[1..]) && NoneIsEcho(t, ns[1..])
  {
    hide IsNotice, NoticeText;
    assert forall k :: 0 <= k < |ns| - 1 ==> ns[1..][k] == ns[k + 1];
  }

  /** Any number of notices. */
  lemma {:induction false} NoticesPass(cs: seq<UrcClass>, s: Session, ns: seq<Notice>, rest: string)
    requires Hears(cs, s) && Ready(cs, s, Texts(ns) + rest) && AllNotices(cs, ns) && NoneIsEcho(s, ns)
    ensures Passes(cs, s, Texts(ns), Told(s, Known(cs, ns)), rest)
    decreases |ns|
  {
    hide Owned, Told, Passes, IsNotice, NotEcho, NoticeText, KnownOne, Hears, AllNotices, NoneIsEcho;
    if ns == [] {
      assert "" + rest == rest;
      ToldMore(s, [], []);
      PassesNothing(cs, s, rest);
    } else {
      var x, us := NoticeText(ns[0]), KnownOne(cs, ns[0]);
      var t := Told(s, us);
      assert Texts(ns) + rest == x + (Texts(ns[1..]) + rest);
      OtherNotices(cs, s, s, ns);
      NoticePasses(cs, s, ns[0], Texts(ns[1..]) + rest);
      ToldHears(cs, s, x, us, Texts(ns[1..]) + rest);
      OtherNotices(cs, s, t, ns);
      NoticesPass(cs, t, ns[1..], rest);
      ToldMore(s, us, Known(cs, ns[1..]));
      PassesBoth(cs, s, x, t, Texts(ns[1..]), Told(t, Known(cs, ns[1..])), rest);
    }
  }

  // ---------------------------------------------------------------- to an idle session

  lemma IdleTold(cs: seq<UrcClass>, s: Session, us: seq<Urc>)
    requires s.state == Idle
    ensures Told(s, us) == WithCodes(s, us)
  {
  }

  lemma NoticesLead(cs: seq<UrcClass>, s: Session, ns: seq<Notice>)
    requires Hears(cs, s) && Ready(cs, s, Texts(ns)) && AllNotices(cs, ns) && NoneIsEcho(s, ns)
    ensures Leads(cs, s, Texts(ns), Told(s, Known(cs, ns))) && Match(cs, s).1 == 0
  {
    hide Told, Passes, Leads, AllNotices, NoneIsEcho, Match;
    assert Texts(ns) + "" == Texts(ns);
    NoticesPass(cs, s, ns, "");
    ToldHears(cs, s, Texts(ns), Known(cs, ns), "");
    LeadsNowhere(cs, Told(s, Known(cs, ns)));
    LeadsNowhere(cs, s);
    PassesThenLeads(cs, s, Texts(ns), Told(s, Known(cs, ns)), "", Told(s, Known(cs, ns)));
  }

  /** Notices to an idle session, in any cut of the bytes: each that is known is queued once with all its lines, in the
      order in which they came, and the session is idle again and otherwise as it was. */
  lemma IdleHears(cs: seq<UrcClass>, s: Session, ns: seq<Notice>, chunks: seq<string>)
    requires s.state == Idle && Ready(cs, s, Joined(chunks)) && Joined(chunks) == Texts(ns) && AllNotices(cs, ns)
    ensures ReceiveAll(cs, s, chunks) == WithCodes(s, Known(cs, ns))
  {
    hide Told, WithCodes, Leads, AllNotices, Match, ReceiveAll;
    NoticesLead(cs, s, ns);
    LeadsInAnyCut(cs, s, chunks, Told(s, Known(cs, ns)));
    IdleTold(cs, s, Known(cs, ns));
  }

  /** The same while an echo is awaited, which goes on. */
  lemma AwaitingHears(cs: seq<UrcClass>, s: Session, ns: seq<Notice>, chunks: seq<string>)
    requires s.state == AwaitingEcho && Ready(cs, s, Joined(chunks)) && Joined(chunks) == Texts(ns)
    requires AllNotices(cs, ns) && NoneIsEcho(s, ns)
    ensures ReceiveAll(cs, s, chunks)
         == WithCodes(s, Known(cs, ns)).(timer := if Known(cs, ns) == [] then s.timer else Some(ECHO_TIMEOUT))
  {
    hide WithCodes, Leads, AllNotices, Match, ReceiveAll, NoneIsEcho;
    NoticesLead(cs, s, ns);
    LeadsInAnyCut(cs, s, chunks, Told(s, Known(cs, ns)));
  }

  /** And of the buffer in memory, whatever is behind its NUL. */
  lemma NoticesHeardInMemory(cs: seq<UrcClass>, s: Session, m: string, ns: seq<Notice>, chunks: seq<string>)
    returns (w: string)
    requires Hears(cs, s) && Holds(s, m) && Ready(cs, s, Joined(chunks)) && Joined(chunks) == Texts(ns)
    requires AllNotices(cs, ns) && NoneIsEcho(s, ns)
    ensures ReadsEnd(cs, s, m, chunks, (Told(s, Known(cs, ns)), w))
  {
    hide Told, Leads, AllNotices, Match, ReadsEnd, NoneIsEcho, Holds;
    NoticesLead(cs, s, ns);
    w := LeadsInMemory(cs, s, m, chunks, Told(s, Known(cs, ns)));
  }
}
