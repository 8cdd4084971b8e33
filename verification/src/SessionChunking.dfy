/**
 How the serial line cuts the byte stream does not matter: reading s then t does what reading s + t does.
 The exceptions are a NUL, and a prompt without its leading CR LF, for which the code still drops four characters.
 The buffer is a string here; SessionMemory has it with what is behind its NUL.
 */
module SessionChunking {
  import opened Text
  import opened Session

  function Fed(s: Session, t: string): Session { s.(buf := s.buf + t) }

  /** The prompt is at the start of a buffer shorter than the four characters dropped for it. */
  ghost predicate ShortPrompt(s: Session)
  {
    s.state == ReadingResponse && PromptAt(s.buf, ResponseBegin(s.buf)) && |s.buf| < 4
  }

  /** The receive loop, started in s, never meets a short prompt. */
  ghost predicate Clean(cs: seq<UrcClass>, s: Session)
    requires Owned(cs, s)
    decreases |s.buf|
  {
    var (s1, n) := Match(cs, s);
    !ShortPrompt(s) && (n == 0 || Clean(cs, Pulled(s1, n)))
  }

  lemma ScanResponseExtends(b: string, t: string)
    requires ScanResponse(b) != Partial
    ensures ScanResponse(b + t) == ScanResponse(b)
  {
    var k := ResponseBegin(b);
    assert ResponseBegin(b + t) == k;
    match ScanResponse(b)
    case Line(text, e) =>
      FindCrLfExtends(b, t, 2);
      assert (b + t)[k..e] == b[k..e];
    case Prompt =>
  }

  lemma ScanUrcExtends(b: string, t: string)
    requires ScanUrc(b) != Wait
    ensures ScanUrc(b + t) == ScanUrc(b)
  {
    var k := UrcBegin(b);
    assert UrcBegin(b + t) == k;
    match ScanUrc(b)
    case UrcLine(text, e) =>
      FindCrLfExtends(b, t, k.value);
      assert (b + t)[k.value..e] == b[k.value..e];
    case Junk =>
  }

  lemma MatchEchoExtends(b: string, t: string, sent: string)
    requires MatchEcho(b, sent) != 0
    ensures MatchEcho(b + t, sent) == MatchEcho(b, sent)
  {
    if sent <= b {
      assert sent <= b + t;
    } else {
      var i :| 0 <= i < |b| && i < |sent| && b[i] != sent[i];
      assert (b + t)[i] != sent[i];
    }
  }

  ghost predicate Fits(s: Session, t: string)
  {
    LiveWithInput(s.state) && '\0' !in t && |s.buf| + |t| < BUFFER_SIZE
  }

  lemma FedOwned(cs: seq<UrcClass>, s: Session, t: string)
    requires Owned(cs, s) && Fits(s, t)
    ensures Owned(cs, Fed(s, t))
  {
  }

  lemma MatchUrcContExtends(cs: seq<UrcClass>, s: Session, t: string)
    requires Owned(cs, s) && Owned(cs, Fed(s, t)) && InUrc(s.state)
    requires MatchUrcCont(cs, s).1 > 0
    ensures MatchUrcCont(cs, Fed(s, t)) == (Fed(MatchUrcCont(cs, s).0, t), MatchUrcCont(cs, s).1)
    ensures MatchUrcCont(cs, s).1 <= |s.buf|
  {
    FindCrLfExtends(s.buf, t, 0);
    var e := FindCrLf(s.buf, 0).value;
    assert (s.buf + t)[..e] == s.buf[..e];
  }

  lemma StartUrcExtends(cs: seq<UrcClass>, s: Session, c: nat, text: string, t: string)
    requires Owned(cs, s) && Owned(cs, Fed(s, t)) && (s.state == Idle || s.state == AwaitingEcho) && c < |cs|
    ensures StartUrc(cs, Fed(s, t), c, text) == Fed(StartUrc(cs, s, c, text), t)
  {
  }

  lemma MatchUrcExtends(cs: seq<UrcClass>, s: Session, t: string)
    requires Owned(cs, s) && Owned(cs, Fed(s, t)) && (s.state == Idle || s.state == AwaitingEcho)
    requires MatchUrc(cs, s).1 > 0
    ensures MatchUrc(cs, Fed(s, t)) == (Fed(MatchUrc(cs, s).0, t), MatchUrc(cs, s).1)
    ensures MatchUrc(cs, s).1 <= |s.buf|
  {
    ScanUrcExtends(s.buf, t);
    hide StartUrc, ScanUrc;
    match ScanUrc(s.buf)
    case Junk =>
    case UrcLine(text, _) =>
      var c := ClassOf(cs, text, 0);
      if c.Some? { StartUrcExtends(cs, s, c.value, text, t); }
  }

  lemma EndLineExtends(cs: seq<UrcClass>, s: Session, text: string, t: string)
    requires Owned(cs, s) && Owned(cs, Fed(s, t)) && s.state == ReadingResponse
    ensures EndLine(cs, Fed(s, t), text) == Fed(EndLine(cs, s, text), t)
  {
  }

  lemma PromptExtends(cs: seq<UrcClass>, s: Session, t: string)
    requires Owned(cs, s) && Owned(cs, Fed(s, t)) && s.state == ReadingResponse
    requires ScanResponse(s.buf) == Prompt == ScanResponse(s.buf + t)
    ensures MatchResponse(cs, Fed(s, t)) == (Fed(MatchResponse(cs, s).0, t), 4)
    ensures MatchResponse(cs, s).1 == 4
  {
    hide Owned, ScanResponse;
  }

  lemma MatchResponseExtends(cs: seq<UrcClass>, s: Session, t: string)
    requires Owned(cs, s) && Owned(cs, Fed(s, t)) && s.state == ReadingResponse
    requires MatchResponse(cs, s).1 > 0 && !ShortPrompt(s)
    ensures MatchResponse(cs, Fed(s, t)) == (Fed(MatchResponse(cs, s).0, t), MatchResponse(cs, s).1)
    ensures MatchResponse(cs, s).1 <= |s.buf|
  {
    ScanResponseExtends(s.buf, t);
    match ScanResponse(s.buf)
    case Line(text, _) => EndLineExtends(cs, s, text, t);
    case Prompt => PromptExtends(cs, s, t);
  }

  /** A turn of the receive loop that consumes something does the same with more bytes behind. */
  lemma MatchExtends(cs: seq<UrcClass>, s: Session, t: string)
    requires Owned(cs, s) && Owned(cs, Fed(s, t)) && Match(cs, s).1 > 0 && !ShortPrompt(s)
    ensures Match(cs, Fed(s, t)) == (Fed(Match(cs, s).0, t), Match(cs, s).1)
    ensures Match(cs, s).1 <= |s.buf|
  {
    hide MatchUrc, MatchUrcCont, MatchResponse, ScanResponse, MatchEcho;
    match s.state
    case Idle => MatchUrcExtends(cs, s, t);
    case AwaitingEcho =>
      MatchEchoExtends(s.buf, t, s.reqs[s.current.value].text);
      if MatchEcho(s.buf, s.reqs[s.current.value].text) < 0 { MatchUrcExtends(cs, s, t); }
    case ReadingUrc => MatchUrcContExtends(cs, s, t);
    case AwaitingEchoReadingUrc => MatchUrcContExtends(cs, s, t);
    case AwaitingSmsEcho => MatchEchoExtends(s.buf, t, s.reqs[s.current.value].pdu.value);
    case AwaitingSmsEcho1A => MatchEchoExtends(s.buf, t, CTRL_Z);
    case ReadingResponse => MatchResponseExtends(cs, s, t);
  }

  /** Feeding more bytes before or after the loop has run comes to the same. */
  lemma {:induction false} DrainExtends(cs: seq<UrcClass>, s: Session, t: string)
    requires Owned(cs, s) && Fits(s, t) && Clean(cs, s)
    ensures Fits(Drain(cs, s), t) && Owned(cs, Fed(s, t)) && Owned(cs, Fed(Drain(cs, s), t))
    ensures Drain(cs, Fed(s, t)) == Drain(cs, Fed(Drain(cs, s), t))
    decreases |s.buf|
  {
    FedOwned(cs, s, t);
    var (s1, n) := Match(cs, s);
    if n != 0 {
      MatchExtends(cs, s, t);
      PulledFed(s1, n, t);
      DrainExtends(cs, Pulled(s1, n), t);
      DrainTurn(cs, s);
      DrainTurn(cs, Fed(s, t));
    }
  }

  lemma PulledFed(s: Session, n: nat, t: string)
    requires n <= |s.buf|
    ensures Pulled(Fed(s, t), n) == Fed(Pulled(s, n), t)
  {
    assert (s.buf + t)[n..] == s.buf[n..] + t;
  }

  lemma DrainTurn(cs: seq<UrcClass>, s: Session)
    requires Owned(cs, s) && Match(cs, s).1 != 0
    ensures Owned(cs, Pulled(Match(cs, s).0, Match(cs, s).1))
    ensures Drain(cs, s) == Drain(cs, Pulled(Match(cs, s).0, Match(cs, s).1))
  {
  }

  // ---------------------------------------------------------------- two reads

  lemma {:induction false} UpToNulAppends(a: string, b: string)
    requires '\0' !in a
    ensures UpToNul(a + b) == a + UpToNul(b)
  {
    if a == "" {
      assert a + b == b;
    } else {
      assert (a + b)[0] == a[0] && (a + b)[1..] == a[1..] + b;
      UpToNulAppends(a[1..], b);
    }
  }

  lemma ReceiveIsDrain(cs: seq<UrcClass>, s: Session, bytes: string)
    requires Owned(cs, s) && LiveWithInput(s.state) && |s.buf| + |bytes| < BUFFER_SIZE
    ensures Fits(s, UpToNul(bytes)) && Owned(cs, Fed(s, UpToNul(bytes)))
    ensures Receive(cs, s, bytes) == Drain(cs, Fed(s, UpToNul(bytes)))
  {
    FedOwned(cs, s, UpToNul(bytes));
  }

  lemma FedTwice(s: Session, a: string, b: string)
    ensures Fed(s, a + b) == Fed(Fed(s, a), b)
  {
    assert s.buf + (a + b) == s.buf + a + b;
  }

  /** Reading a + b at once is reading a and then b. */
  lemma ReceiveSplits(cs: seq<UrcClass>, s: Session, a: string, b: string)
    requires Owned(cs, s) && Fits(s, a) && |s.buf| + |a| + |b| < BUFFER_SIZE
    requires Owned(cs, Fed(s, a)) && Clean(cs, Fed(s, a))
    ensures Receive(cs, s, a + b) == Receive(cs, Receive(cs, s, a), b)
  {
    ReceiveIsDrain(cs, s, a);
    ReceiveIsDrain(cs, s, a + b);
    UpToNulAppends(a, b);
    FedTwice(s, a, UpToNul(b));
    DrainExtends(cs, Fed(s, a), UpToNul(b));
    DrainSettles(cs, Fed(s, a));
    ReceiveIsDrain(cs, Receive(cs, s, a), b);
  }

  lemma ThrownAway(cs: seq<UrcClass>, s: Session, bytes: string)
    requires Owned(cs, s) && (s.state == Failed || s.state == Recovering) && |s.buf| + |bytes| < BUFFER_SIZE
    ensures Receive(cs, s, bytes) == s
  {
    hide UpToNul;
  }

  lemma LeftInBuffer(cs: seq<UrcClass>, s: Session, bytes: string)
    requires Owned(cs, s) && !IsLive(s.state) && |s.buf| + |bytes| < BUFFER_SIZE
    ensures Receive(cs, s, bytes) == Fed(s, UpToNul(bytes))
  {
    hide Owned, UpToNul;
  }

  /** The states that do not match input leave it, or throw it away, in one read as in two; a live session throws it
      away, NUL or not. */
  lemma OtherStatesSplit(cs: seq<UrcClass>, s: Session, a: string, b: string)
    requires Owned(cs, s) && !LiveWithInput(s.state) && |s.buf| + |a| + |b| < BUFFER_SIZE
    requires IsLive(s.state) || '\0' !in a
    ensures Receive(cs, s, a + b) == Receive(cs, Receive(cs, s, a), b)
    ensures IsLive(s.state) ==> Receive(cs, s, a) == s
  {
    hide Receive;
    if IsLive(s.state) {
      ThrownAway(cs, s, a);
      ThrownAway(cs, s, b);
      ThrownAway(cs, s, a + b);
    } else {
      UpToNulAppends(a, b);
      UpToNulAppends(a, "");
      assert a + "" == a;
      LeftInBuffer(cs, s, a);
      LeftInBuffer(cs, s, a + b);
      FedTwice(s, a, UpToNul(b));
      LeftInBuffer(cs, Fed(s, a), b);
    }
  }

  /** The turn that takes a short prompt, whatever follows it. */
  lemma ShortPromptTurn(cs: seq<UrcClass>, s: Session, t: string)
    requires Owned(cs, s) && ShortPrompt(s) && Owned(cs, Fed(s, t))
    ensures Match(cs, s).1 == 4 && Match(cs, Fed(s, t)) == (Fed(Match(cs, s).0, t), 4)
    ensures var p := Pulled(Match(cs, s).0, 4);
      p.buf == "" && (p.state == ReadingResponse || p.state == AwaitingSmsEcho)
  {
    hide Owned, ScanResponse, EndLine, ResponseBegin, PromptAt;
    ScanResponseExtends(s.buf, t);
    PromptExtends(cs, s, t);
  }

  /** A short prompt, with one more byte or without, leaves the same behind. */
  lemma ShortPromptTakesAll(cs: seq<UrcClass>, s: Session) returns (p: Session)
    requires Owned(cs, s) && ShortPrompt(s) && Owned(cs, Fed(s, "x"))
    ensures Owned(cs, p) && p.buf == "" && (p.state == ReadingResponse || p.state == AwaitingSmsEcho)
    ensures Drain(cs, s) == Drain(cs, p) == Drain(cs, Fed(s, "x"))
  {
    hide Drain, Match, Owned;
    ShortPromptTurn(cs, s, "x");
    p := Pulled(Match(cs, s).0, 4);
    DrainTurn(cs, s);
    DrainTurn(cs, Fed(s, "x"));
    assert Pulled(Fed(Match(cs, s).0, "x"), 4) == p;
  }

  /** So it shows whether that byte came with the prompt or after it. */
  lemma ShortPromptSplits(cs: seq<UrcClass>, s: Session)
    requires Owned(cs, s) && ShortPrompt(s)
    ensures Fits(s, "x") && Owned(cs, Fed(s, "x")) && Owned(cs, Fed(Drain(cs, s), "x"))
    ensures Drain(cs, Fed(s, "x")) != Drain(cs, Fed(Drain(cs, s), "x"))
  {
    FedOwned(cs, s, "x");
    var p := ShortPromptTakesAll(cs, s);
    LoneByte(cs, p);
  }

  lemma DrainStops(cs: seq<UrcClass>, s: Session)
    requires Owned(cs, s) && Match(cs, s).1 == 0
    ensures Drain(cs, s) == s
  {
    hide Match, Owned;
  }

  /** After a prompt, one more byte does not go unnoticed. */
  lemma LoneByte(cs: seq<UrcClass>, p: Session)
    requires Owned(cs, p) && p.buf == "" && (p.state == ReadingResponse || p.state == AwaitingSmsEcho)
    ensures Fits(p, "x") && Owned(cs, Fed(p, "x"))
    ensures Drain(cs, p) == p && Drain(cs, Fed(p, "x")) != p
  {
    hide Drain;
    FedOwned(cs, p, "x");
    assert Fed(p, "x").buf == "x";
    NothingToMatch(cs, p);
    DrainStops(cs, p);
    if p.state == AwaitingSmsEcho {
      LoneEcho(cs, p);
    } else {
      hide Owned;
      assert ScanResponse("x") == Partial;
      DrainStops(cs, Fed(p, "x"));
    }
  }

  lemma NothingToMatch(cs: seq<UrcClass>, p: Session)
    requires Owned(cs, p) && p.buf == ""
    ensures Match(cs, p).1 == 0
  {
    hide Owned;
  }

  /** Its echo goes on to the next state if the PDU is that one byte. */
  lemma LoneEcho(cs: seq<UrcClass>, p: Session)
    requires Owned(cs, p) && p.buf == "" && p.state == AwaitingSmsEcho && Owned(cs, Fed(p, "x"))
    ensures Drain(cs, Fed(p, "x")) != p
  {
    hide Drain;
    var q := Fed(p, "x");
    assert q.buf == "x";
    if Match(cs, q).1 == 0 {
      DrainStops(cs, q);
    } else {
      assert Match(cs, q).1 == 1 && Match(cs, q).0.state == AwaitingSmsEcho1A;
      DrainTurn(cs, q);
      var r := Pulled(Match(cs, q).0, 1);
      assert r.buf == "";
      NothingToMatch(cs, r);
      DrainStops(cs, r);
    }
  }

  lemma {:induction false} UncleanSplits(cs: seq<UrcClass>, s: Session)
    requires Owned(cs, s) && Fits(s, "x") && !Clean(cs, s)
    ensures Owned(cs, Fed(s, "x")) && Owned(cs, Fed(Drain(cs, s), "x"))
    ensures Drain(cs, Fed(s, "x")) != Drain(cs, Fed(Drain(cs, s), "x"))
    decreases |s.buf|
  {
    FedOwned(cs, s, "x");
    if ShortPrompt(s) {
      ShortPromptSplits(cs, s);
    } else {
      var (s1, n) := Match(cs, s);
      MatchExtends(cs, s, "x");
      PulledFed(s1, n, "x");
      UncleanSplits(cs, Pulled(s1, n));
      DrainTurn(cs, s);
      DrainTurn(cs, Fed(s, "x"));
    }
  }

  ghost predicate Splits(cs: seq<UrcClass>, s: Session, a: string, b: string)
    requires Owned(cs, s)
  {
    |s.buf| + |a| + |b| < BUFFER_SIZE ==>
      Receive(cs, s, a + b) == Receive(cs, Receive(cs, s, a), b)
  }

  // ---------------------------------------------------------------- a NUL before the cut

  /** What follows a NUL in one read is not seen. */
  lemma {:induction false} NulHides(a: string, b: string)
    requires '\0' in a
    ensures UpToNul(a + b) == UpToNul(a)
  {
    assert (a + b)[0] == a[0];
    if a[0] != '\0' {
      assert (a + b)[1..] == a[1..] + b;
      NulHides(a[1..], b);
    }
  }

  /** One character that does not end a line leaves the line end where it was: nowhere. */
  lemma NoLineEnd(b: string, c: char, from: nat)
    requires from <= |b| && FindCrLf(b, from).None? && c != '\n'
    ensures FindCrLf(b + [c], from).None?
  {
    var r := FindCrLf(b + [c], from);
    if r.Some? { assert CrLfAt(b, r.value); }
  }

  /** A character for which an unsolicited line has to wait on. */
  function WaitChar(b: string): (c: char)
    ensures c != '\0'
  {
    if b == "" then '\r' else if b == "\r" || b == "\r\n\r" then '\n' else 'x'
  }

  lemma UrcWaits(b: string)
    requires ScanUrc(b) == Wait
    ensures ScanUrc(b + [WaitChar(b)]) == Wait
  {
    var t := b + [WaitChar(b)];
    if UrcBegin(b).Some? {
      assert UrcBegin(t) == UrcBegin(b);
      NoLineEnd(b, 'x', UrcBegin(b).value);
    } else if b == "\r\n" {
      assert t == "\r\nx";
      assert forall i :: 2 <= i ==> !CrLfAt(t, i);
    } else if b == "\r\n\r" {
      assert t == "\r\n\r\n";
      assert forall i :: 4 <= i ==> !CrLfAt(t, i);
    } else {
      assert b == "" || b == "\r";
    }
  }

  lemma ResponseWaits(b: string)
    requires ScanResponse(b) == Partial
    ensures ScanResponse(b + "x") == Partial
  {
    var t, k := b + "x", ResponseBegin(b);
    assert ResponseBegin(t) == k;
    assert !PromptAt(b, k);
    if |b| >= 2 { NoLineEnd(b, 'x', 2); }
    if |b| == 1 { assert FindCrLf(t, 2).None?; }
    assert k + 1 < |b| ==> t[k] == b[k] && t[k + 1] == b[k + 1];
    assert k + 1 == |b| ==> t[k + 1] == 'x';
  }

  /** The matcher keeps waiting, with one character more in the buffer. */
  lemma WaitsIsNoticed(cs: seq<UrcClass>, r: Session, c: char)
    requires Owned(cs, r) && Owned(cs, Fed(r, [c])) && Match(cs, Fed(r, [c])).1 == 0
    ensures Drain(cs, Fed(r, [c])) != r
  {
    hide Match, Owned;
    assert |Fed(r, [c]).buf| == |r.buf| + 1;
  }

  lemma UrcIsNoticed(cs: seq<UrcClass>, r: Session) returns (c: char)
    requires Owned(cs, r) && (r.state == Idle || r.state == AwaitingEcho) && Fits(r, [WaitChar(r.buf)])
    requires ScanUrc(r.buf) == Wait
    requires r.state == AwaitingEcho ==> MatchEcho(r.buf, r.reqs[r.current.value].text) < 0
    ensures c != '\0' && Owned(cs, Fed(r, [c])) && Drain(cs, Fed(r, [c])) != r
  {
    c := WaitChar(r.buf);
    FedOwned(cs, r, [c]);
    UrcWaits(r.buf);
    if r.state == AwaitingEcho { MatchEchoExtends(r.buf, [c], r.reqs[r.current.value].text); }
    WaitsIsNoticed(cs, r, c);
  }

  /** The last character of an echo is consumed with it. */
  lemma EchoEnds(cs: seq<UrcClass>, q: Session)
    requires Owned(cs, q) && q.state == AwaitingEcho && q.buf == q.reqs[q.current.value].text && q.buf != ""
    ensures Drain(cs, q).state == ReadingResponse
  {
    hide Drain, MatchUrc;
    assert Match(cs, q).1 == |q.buf| && Match(cs, q).0.state == ReadingResponse;
    DrainTurn(cs, q);
    var t := Pulled(Match(cs, q).0, |q.buf|);
    assert t.buf == "";
    NothingToMatch(cs, t);
    DrainStops(cs, t);
  }

  /** The next character of an echo under way either lets it wait or completes it. */
  lemma EchoIsNoticed(cs: seq<UrcClass>, r: Session) returns (c: char)
    requires Owned(cs, r) && r.state == AwaitingEcho && |r.buf| + 1 < BUFFER_SIZE
    requires MatchEcho(r.buf, r.reqs[r.current.value].text) == 0
    ensures c != '\0' && Owned(cs, Fed(r, [c])) && Drain(cs, Fed(r, [c])) != r
  {
    hide Drain, MatchUrc;
    var sent := r.reqs[r.current.value].text;
    c := sent[|r.buf|];
    FedOwned(cs, r, [c]);
    var q := Fed(r, [c]);
    assert q.buf == sent[..|r.buf| + 1];
    if |q.buf| == |sent| {
      assert q.buf == sent;
      EchoEnds(cs, q);
    } else {
      assert q.buf < sent;
      WaitsIsNoticed(cs, r, c);
    }
  }

  /** A character that cannot belong to the echo of `sent` behind b. */
  function Mismatch(b: string, sent: string): (c: char)
    ensures c != '\0'
  {
    if |b| < |sent| && sent[|b|] == 'x' then 'y' else 'x'
  }

  lemma MismatchWaits(b: string, sent: string)
    requires MatchEcho(b, sent) <= 0 && sent != ""
    ensures MatchEcho(b + [Mismatch(b, sent)], sent) < 0
  {
    var t := b + [Mismatch(b, sent)];
    if MatchEcho(b, sent) < 0 {
      MatchEchoExtends(b, [Mismatch(b, sent)], sent);
    } else {
      assert b <= sent && (|b| == |sent| ==> b == sent);
      assert t[|b|] != sent[|b|];
    }
  }

  lemma MessageEchoIsNoticed(cs: seq<UrcClass>, r: Session, sent: string) returns (c: char)
    requires Owned(cs, r) && (r.state == AwaitingSmsEcho || r.state == AwaitingSmsEcho1A) && |r.buf| + 1 < BUFFER_SIZE
    requires sent == (if r.state == AwaitingSmsEcho then r.reqs[r.current.value].pdu.value else CTRL_Z)
    requires MatchEcho(r.buf, sent) <= 0
    ensures c != '\0' && Owned(cs, Fed(r, [c])) && Drain(cs, Fed(r, [c])) != r
  {
    c := Mismatch(r.buf, sent);
    FedOwned(cs, r, [c]);
    MismatchWaits(r.buf, sent);
    WaitsIsNoticed(cs, r, c);
  }

  lemma LineIsNoticed(cs: seq<UrcClass>, r: Session)
    requires Owned(cs, r) && (r.state == ReadingResponse || InUrc(r.state)) && |r.buf| + 1 < BUFFER_SIZE
    requires Match(cs, r).1 == 0
    ensures Owned(cs, Fed(r, "x")) && Drain(cs, Fed(r, "x")) != r
  {
    FedOwned(cs, r, "x");
    hide Owned, EndLine, MoreUrc, ScanResponse;
    if r.state == ReadingResponse { ResponseWaits(r.buf); } else { NoLineEnd(r.buf, 'x', 0); }
    WaitsIsNoticed(cs, r, 'x');
  }

  /** Some character that follows a settled buffer changes the session. */
  lemma Noticed(cs: seq<UrcClass>, r: Session) returns (c: char)
    requires Owned(cs, r) && LiveWithInput(r.state) && Match(cs, r).1 == 0 && |r.buf| + 1 < BUFFER_SIZE
    ensures c != '\0' && Owned(cs, Fed(r, [c])) && Drain(cs, Fed(r, [c])) != r
  {
    match r.state
    case Idle => c := UrcIsNoticed(cs, r);
    case AwaitingEcho =>
      if MatchEcho(r.buf, r.reqs[r.current.value].text) < 0 { c := UrcIsNoticed(cs, r); }
      else { c := EchoIsNoticed(cs, r); }
    case AwaitingSmsEcho => c := MessageEchoIsNoticed(cs, r, r.reqs[r.current.value].pdu.value);
    case AwaitingSmsEcho1A => c := MessageEchoIsNoticed(cs, r, CTRL_Z);
    case ReadingUrc | AwaitingEchoReadingUrc | ReadingResponse =>
      LineIsNoticed(cs, r);
      c := 'x';
  }

  /** So a NUL before the cut shows: without the cut it hides that character. */
  lemma NulSplits(cs: seq<UrcClass>, s: Session, a: string) returns (b: string)
    requires Owned(cs, s) && LiveWithInput(s.state) && |s.buf| + |a| + 1 < BUFFER_SIZE && '\0' in a
    ensures !Splits(cs, s, a, b)
  {
    ReceiveIsDrain(cs, s, a);
    var r := Receive(cs, s, a);
    DrainSettles(cs, Fed(s, UpToNul(a)));
    var c := Noticed(cs, r);
    b := [c];
    NulHides(a, b);
    ReceiveIsDrain(cs, s, a + b);
    ReceiveIsDrain(cs, r, b);
    assert UpToNul(b) == b;
  }

  // ---------------------------------------------------------------- the exact condition

  /** A cut after the bytes a is invisible, whatever follows, exactly when they contain no NUL and the loop that
      consumes them meets no short prompt. */
  lemma ChunkingExact(cs: seq<UrcClass>, s: Session, a: string)
    requires Owned(cs, s) && LiveWithInput(s.state) && |s.buf| + |a| + 1 < BUFFER_SIZE
    ensures '\0' !in a ==> Owned(cs, Fed(s, a))
    ensures '\0' !in a && Clean(cs, Fed(s, a)) <==> forall b :: Splits(cs, s, a, b)
  {
    if '\0' in a {
      var b := NulSplits(cs, s, a);
    } else {
      PlainChunkingExact(cs, s, a);
    }
  }

  lemma PlainChunkingExact(cs: seq<UrcClass>, s: Session, a: string)
    requires Owned(cs, s) && Fits(s, a) && |s.buf| + |a| + 1 < BUFFER_SIZE
    ensures Owned(cs, Fed(s, a))
    ensures Clean(cs, Fed(s, a)) <==> forall b :: Splits(cs, s, a, b)
  {
    FedOwned(cs, s, a);
    if Clean(cs, Fed(s, a)) {
      forall b ensures Splits(cs, s, a, b) {
        if |s.buf| + |a| + |b| < BUFFER_SIZE { ReceiveSplits(cs, s, a, b); }
      }
    } else {
      UncleanSplits(cs, Fed(s, a));
      FedTwice(s, a, "x");
      ReceiveIsDrain(cs, s, a);
      ReceiveIsDrain(cs, s, a + "x");
      DrainSettles(cs, Fed(s, a));
      ReceiveIsDrain(cs, Receive(cs, s, a), "x");
      assert !Splits(cs, s, a, "x");
    }
  }

  // ---------------------------------------------------------------- any number of reads

  /** Every prompt the loop meets comes as CR LF > SPACE (section 4.3 of 3GPP TS 27.005). */
  ghost predicate Framed(cs: seq<UrcClass>, s: Session)
    requires Owned(cs, s)
    decreases |s.buf|
  {
    var (s1, n) := Match(cs, s);
    && (s.state == ReadingResponse && PromptAt(s.buf, ResponseBegin(s.buf)) ==> ResponseBegin(s.buf) == 2)
    && (n == 0 || Framed(cs, Pulled(s1, n)))
  }

  lemma FramedIsNotShort(cs: seq<UrcClass>, s: Session, t: string)
    requires Owned(cs, Fed(s, t)) && Framed(cs, Fed(s, t))
    ensures !ShortPrompt(s)
  {
    hide Match, Owned;
    if s.state == ReadingResponse && PromptAt(s.buf, ResponseBegin(s.buf)) {
      ScanResponseExtends(s.buf, t);
      assert ResponseBegin(s.buf + t) == ResponseBegin(s.buf);
    }
  }

  lemma {:induction false} FramedPrefix(cs: seq<UrcClass>, s: Session, t: string)
    requires Owned(cs, s) && Fits(s, t) && Owned(cs, Fed(s, t)) && Framed(cs, Fed(s, t))
    ensures Clean(cs, s)
    ensures Owned(cs, Fed(Drain(cs, s), t)) && Framed(cs, Fed(Drain(cs, s), t))
    decreases |s.buf|
  {
    hide Match, ShortPrompt, Framed, Owned;
    FramedIsNotShort(cs, s, t);
    var (s1, n) := Match(cs, s);
    if n == 0 {
      DrainStops(cs, s);
    } else {
      MatchExtends(cs, s, t);
      PulledFed(s1, n, t);
      FramedTurn(cs, Fed(s, t));
      DrainTurn(cs, s);
      FedOwned(cs, Pulled(s1, n), t);
      FramedPrefix(cs, Pulled(s1, n), t);
    }
  }

  lemma FramedTurn(cs: seq<UrcClass>, s: Session)
    requires Owned(cs, s) && Framed(cs, s) && Match(cs, s).1 != 0
    ensures Owned(cs, Pulled(Match(cs, s).0, Match(cs, s).1))
    ensures Framed(cs, Pulled(Match(cs, s).0, Match(cs, s).1))
  {
  }

  function Joined(chunks: seq<string>): string
  {
    if chunks == [] then "" else chunks[0] + Joined(chunks[1..])
  }

  function ReceiveAll(cs: seq<UrcClass>, s: Session, chunks: seq<string>): (r: Session)
    requires Owned(cs, s) && |s.buf| + |Joined(chunks)| < BUFFER_SIZE
    ensures Owned(cs, r)
    decreases |chunks|
  {
    if chunks == [] then s else ReceiveAll(cs, Receive(cs, s, chunks[0]), chunks[1..])
  }

  /** However a framed byte stream is cut into reads, with no NUL before a cut, the outcome is that of one read. */
  lemma {:induction false} ChunkingIndependence(cs: seq<UrcClass>, s: Session, chunks: seq<string>)
    requires Owned(cs, s) && LiveWithInput(s.state) && |s.buf| + |Joined(chunks)| < BUFFER_SIZE
    requires forall k :: 0 <= k < |chunks| - 1 ==> '\0' !in chunks[k]
    requires Owned(cs, Fed(s, UpToNul(Joined(chunks)))) && Framed(cs, Fed(s, UpToNul(Joined(chunks))))
    requires chunks != [] || Match(cs, s).1 == 0
    ensures ReceiveAll(cs, s, chunks) == Receive(cs, s, Joined(chunks))
    decreases |chunks|
  {
    if chunks == [] {
      assert Fed(s, "").buf == s.buf;
    } else if |chunks| == 1 {
      assert Joined(chunks) == chunks[0];
    } else {
      var c, rest := chunks[0], Joined(chunks[1..]);
      FirstChunk(cs, s, c, rest);
      ChunkingIndependence(cs, Receive(cs, s, c), chunks[1..]);
    }
  }

  lemma FirstChunk(cs: seq<UrcClass>, s: Session, c: string, rest: string)
    requires Owned(cs, s) && Fits(s, c) && |s.buf| + |c| + |rest| < BUFFER_SIZE
    requires Owned(cs, Fed(s, UpToNul(c + rest))) && Framed(cs, Fed(s, UpToNul(c + rest)))
    ensures Receive(cs, s, c + rest) == Receive(cs, Receive(cs, s, c), rest)
    ensures var s1 := Receive(cs, s, c);
      && LiveWithInput(s1.state) && |s1.buf| + |rest| < BUFFER_SIZE
      && Owned(cs, Fed(s1, UpToNul(rest))) && Framed(cs, Fed(s1, UpToNul(rest)))
  {
    UpToNulAppends(c, rest);
    UpToNulAppends(c, "");
    assert c + "" == c && UpToNul(c) == c;
    FedTwice(s, c, UpToNul(rest));
    FedOwned(cs, s, c);
    FramedPrefix(cs, Fed(s, c), UpToNul(rest));
    ReceiveSplits(cs, s, c, rest);
    ReceiveIsDrain(cs, s, c);
    DrainSettles(cs, Fed(s, c));
  }

  lemma {:induction false} DrainSettles(cs: seq<UrcClass>, s: Session)
    requires Owned(cs, s)
    ensures Match(cs, Drain(cs, s)).1 == 0
    ensures LiveWithInput(s.state) ==> LiveWithInput(Drain(cs, s).state)
    decreases |s.buf|
  {
    var (s1, n) := Match(cs, s);
    if n != 0 { DrainSettles(cs, Pulled(s1, n)); }
  }
}
