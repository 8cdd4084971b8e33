/**
 What requests are and what becomes of them, over every run: each keeps what was submitted, and completes with the
 code of its last line, or as failed if it has no line with a code.
 */
module SessionResults {
  import opened Bits
  import opened Hex
  import opened Text
  import opened Session
  import opened SessionInvariants
  import opened SessionProgress

  // ---------------------------------------------------------------- result codes

  /** The lines that end a response (section 5.7 of ITU-T V.250), and the code of each. */
  lemma ResultCodes()
    ensures FinalCode("OK") == 0 && FinalCode("CONNECT") == 1 && FinalCode("NO CARRIER") == 2
    ensures FinalCode("ERROR") == 3 && FinalCode("NO DIALTONE") == 4 && FinalCode("BUSY") == 5
    ensures FinalCode("NO ANSWER") == 6
  {
  }

  /** Numbered errors (section 9 of 3GPP TS 27.007, section 3.2.5 of 3GPP TS 27.005). */
  lemma ErrorCodes(n: nat)
    ensures FinalCode("+CME ERROR: " + Printed(n)) == 1000 + n
    ensures FinalCode("+CMS ERROR: " + Printed(n)) == 2000 + n
  {
    AtoiPrinted(n);
    NumberedError("+CME ERROR: ", Printed(n));
    NumberedError("+CMS ERROR: ", Printed(n));
  }

  lemma NumberedError(head: string, tail: string)
    requires head == "+CME ERROR: " || head == "+CMS ERROR: "
    ensures FinalCode(head + tail)
         == Atoi(tail) + if head == "+CME ERROR: " then CME_ERROR_BASE else CMS_ERROR_BASE
  {
    hide Atoi;
    var line := head + tail;
    assert line[0] == '+' && line[3] == head[3] && line[12..] == tail;
    assert head <= line && |head| == 12;
    if head == "+CMS ERROR: " { assert line[3] != "+CME ERROR: "[3]; }
  }

  /** Any other line is information. */
  lemma OtherLines(line: string)
    requires line !in ["OK", "CONNECT", "NO CARRIER", "ERROR", "NO DIALTONE", "BUSY", "NO ANSWER"]
    requires !("+CME ERROR: " <= line) && !("+CMS ERROR: " <= line)
    ensures FinalCode(line) == 100
  {
  }

  // ---------------------------------------------------------------- results

  ghost predicate NoCodes(lines: seq<string>)
  {
    forall k :: 0 <= k < |lines| ==> FinalCode(lines[k]) == RESP_UNKNOWN
  }

  /** A request that waits has no line with a code; a completed one has the code of its last line, or has failed. */
  ghost predicate Settled(r: Request)
  {
    if !r.ready then NoCodes(r.lines)
    else
      || (r.err == RESP_FAILED && NoCodes(r.lines))
      || (r.lines != [] && r.err == FinalCode(r.lines[|r.lines| - 1]) != RESP_UNKNOWN
          && NoCodes(r.lines[..|r.lines| - 1]))
  }

  ghost predicate AllSettled(s: Session)
  {
    forall i :: 0 <= i < |s.reqs| ==> Settled(s.reqs[i])
  }

  /** What a request keeps as long as it is. */
  predicate Same(r: Request, q: Request) { r.text == q.text && r.pdu == q.pdu && r.timeout == q.timeout }

  ghost predicate Extends(s: Session, t: Session)
  {
    |s.reqs| <= |t.reqs| && forall i :: 0 <= i < |s.reqs| ==> Same(s.reqs[i], t.reqs[i])
  }

  /** The step from s to t keeps all that. */
  ghost predicate Keeps(s: Session, t: Session)
  {
    Extends(s, t) && |t.reqs| == |s.reqs| && (AllSettled(s) ==> AllSettled(t))
  }

  lemma KeepsBoth(s: Session, t: Session, u: Session)
    requires Keeps(s, t) && Keeps(t, u)
    ensures Keeps(s, u)
  {
    hide Settled;
  }

  /** The request in hand is not completed. */
  lemma InHandWaits(s: Session)
    requires Ledger(s) && s.current.Some?
    ensures s.current.value < |s.reqs| && !s.reqs[s.current.value].ready
  {
    Positions(s);
    Members(s, s.current.value);
  }

  lemma OneChanged(s: Session, t: Session, i: nat, r: Request)
    requires i < |s.reqs| && t.reqs == s.reqs[i := r] && Same(s.reqs[i], r)
    requires Settled(s.reqs[i]) ==> Settled(r)
    ensures Keeps(s, t)
  {
    hide Settled;
  }

  lemma LineSettles(r: Request, text: string)
    requires Settled(r) && !r.ready
    ensures FinalCode(text) == RESP_UNKNOWN ==> Settled(r.(lines := r.lines + [text]))
    ensures FinalCode(text) != RESP_UNKNOWN ==>
      forall n :: Settled(r.(lines := r.lines + [text], err := FinalCode(text), ready := true, refcnt := n))
  {
    hide FinalCode;
    var ls := r.lines + [text];
    assert ls[..|ls| - 1] == r.lines;
  }

  lemma EndLineSettles(cs: seq<UrcClass>, s: Session, text: string)
    requires Owned(cs, s) && Ledger(s) && s.state == ReadingResponse
    ensures Keeps(s, EndLine(cs, s, text))
  {
    hide Ledger, Settled, FinalCode, Sendable;
    InHandWaits(s);
    var i := s.current.value;
    if Settled(s.reqs[i]) { LineSettles(s.reqs[i], text); }
    OneChanged(s, EndLine(cs, s, text), i, EndLine(cs, s, text).reqs[i]);
  }

  lemma NothingChanged(s: Session, t: Session)
    requires t.reqs == s.reqs
    ensures Keeps(s, t)
  {
  }

  lemma UrcOnly(cs: seq<UrcClass>, s: Session)
    requires Owned(cs, s) && (s.state == Idle || s.state == AwaitingEcho)
    ensures var t := MatchUrc(cs, s).0; t.reqs == s.reqs && t.completed == s.completed
  {
    hide ScanUrc, Owned;
  }

  lemma MoreOnly(cs: seq<UrcClass>, s: Session)
    requires Owned(cs, s) && InUrc(s.state)
    ensures var t := MatchUrcCont(cs, s).0; t.reqs == s.reqs && t.completed == s.completed
  {
    hide FindCrLf, Sendable;
  }

  lemma MatchSettles(cs: seq<UrcClass>, s: Session)
    requires Owned(cs, s) && Ledger(s)
    ensures Keeps(s, Match(cs, s).0)
  {
    hide Ledger, Settled, EndLine, ScanResponse, MatchEcho, Sendable, Keeps, MatchUrc, MatchUrcCont;
    if s.state == Idle || s.state == AwaitingEcho { UrcOnly(cs, s); }
    if InUrc(s.state) { MoreOnly(cs, s); }
    var t := Match(cs, s).0;
    if s.state == ReadingResponse && ScanResponse(s.buf).Line? {
      EndLineSettles(cs, s, ScanResponse(s.buf).text);
    } else {
      NothingChanged(s, t);
    }
  }

  lemma {:induction false} DrainSettlesAll(cs: seq<UrcClass>, s: Session)
    requires Owned(cs, s) && Ledger(s)
    ensures Keeps(s, Drain(cs, s))
    decreases |s.buf|
  {
    hide Ledger, Keeps, Match;
    var (s1, n) := Match(cs, s);
    if n == 0 {
      NothingChanged(s, s);
    } else {
      MatchKeeps(cs, s);
      MatchSettles(cs, s);
      PulledKeeps(s1, Pull(s1.buf, n));
      NothingChanged(s1, Pulled(s1, n));
      KeepsBoth(s, s1, Pulled(s1, n));
      DrainSettlesAll(cs, Pulled(s1, n));
      KeepsBoth(s, Pulled(s1, n), Drain(cs, s));
    }
  }

  lemma ReceiveSettles(cs: seq<UrcClass>, s: Session, bytes: string)
    requires Owned(cs, s) && Ledger(s) && |s.buf| + |bytes| < BUFFER_SIZE
    ensures Keeps(s, Receive(cs, s, bytes))
  {
    hide Ledger, Keeps, Drain;
    var u := s.(buf := s.buf + UpToNul(bytes));
    NothingChanged(s, u);
    if s.state == Failed || s.state == Recovering {
      NothingChanged(s, Receive(cs, s, bytes));
    } else {
      PulledKeeps(s, u.buf);
      DrainSettlesAll(cs, u);
      KeepsBoth(s, u, Receive(cs, s, bytes));
    }
  }

  /** A waiting request that is completed as failed. */
  lemma FailedSettles(s: Session, i: nat, t: Session, n: int, k: int)
    requires i < |s.reqs| && !s.reqs[i].ready
    requires t.reqs == s.reqs[i := s.reqs[i].(err := RESP_FAILED, ready := true, refcnt := n, retransmit := k)]
    ensures Keeps(s, t)
  {
    hide FinalCode;
    OneChanged(s, t, i, t.reqs[i]);
  }

  lemma TimerSettles(cs: seq<UrcClass>, s: Session)
    requires Owned(cs, s) && Ledger(s) && s.timer.Some?
    ensures Keeps(s, TimerFired(cs, s))
  {
    hide Ledger, Keeps, Sendable;
    var t := TimerFired(cs, s);
    if s.state == Recovering && s.current.Some? {
      InHandWaits(s);
      var i := s.current.value;
      if t.reqs[i].ready {
        FailedSettles(s, i, t, s.reqs[i].refcnt, s.reqs[i].retransmit - 1);
      } else {
        OneChanged(s, t, i, t.reqs[i]);
      }
    } else {
      NothingChanged(s, t);
    }
  }

  lemma QueuedWaits(s: Session)
    requires Ledger(s) && s.queue != []
    ensures s.queue[0] < |s.reqs| && !s.reqs[s.queue[0]].ready
  {
    Positions(s);
    Members(s, s.queue[0]);
  }

  lemma {:induction false} FlushSettles(cs: seq<UrcClass>, s: Session)
    requires Owned(cs, s) && Ledger(s) && s.current.None?
    ensures Keeps(s, Flush(cs, s))
    decreases |s.queue|
  {
    hide Ledger, Keeps;
    if s.queue == [] {
      NothingChanged(s, s);
    } else {
      QueuedWaits(s);
      FlushOneKeeps(s);
      var i := s.queue[0];
      var t := Complete(s.(queue := s.queue[1..]), i, RESP_FAILED);
      FailedSettles(s, i, t, s.reqs[i].refcnt, s.reqs[i].retransmit);
      FlushSettles(cs, t);
      KeepsBoth(s, t, Flush(cs, s));
    }
  }

  /** One step of any thread keeps the requests and settles them; a submission may add one. */
  lemma NextSettles(cs: seq<UrcClass>, s: Session, e: Event)
    requires Owned(cs, s) && Ledger(s) && Enabled(s, e)
    ensures Extends(s, Next(cs, s, e)) && (AllSettled(s) ==> AllSettled(Next(cs, s, e)))
    ensures !e.Submitted? ==> |Next(cs, s, e).reqs| == |s.reqs|
  {
    hide Ledger, Settled, Receive, TimerFired, Flush, FinalCode;
    match e
    case Submitted(text, pdu, timeout) => SubmitSettles(cs, s, text, pdu, timeout);
    case Served => if s.state == Failed { FlushSettles(cs, s); }
    case Expired => TimerSettles(cs, s);
    case Arrived(bytes) => ReceiveSettles(cs, s, bytes);
    case CloseAsked =>
    case ThreadExited =>
    case CompletionRun => PutSettles(s, Next(cs, s, e), s.completions[0]);
    case UrcHandled =>
    case CallerPut(i) => PutSettles(s, Next(cs, s, e), i);
  }

  lemma PutSettles(s: Session, t: Session, i: nat)
    requires i < |s.reqs| && t.reqs == s.reqs[i := s.reqs[i].(refcnt := s.reqs[i].refcnt - 1)]
    ensures Keeps(s, t)
  {
    hide FinalCode;
    OneChanged(s, t, i, t.reqs[i]);
  }

  /** What is queued is what was submitted: the command with a CR behind it, the PDU in hexadecimal, and the timeout and
      a tenth of a second. */
  ghost predicate Holds(r: Request, text: string, pdu: seq<octet>, timeout: nat)
  {
    && r.text == text + "\r" && r.timeout == timeout + 100_000
    && (if pdu == [] then r.pdu == None
        else r.pdu.Some? && |r.pdu.value| % 2 == 0 && ParseHex(r.pdu.value) == pdu)
  }

  lemma SubmitSettles(cs: seq<UrcClass>, s: Session, text: string, pdu: seq<octet>, timeout: nat)
    requires Owned(cs, s) && '\0' !in text
    ensures var (t, id) := Submit(cs, s, text, pdu, timeout);
      && Extends(s, t) && (AllSettled(s) ==> AllSettled(t))
      && (if |text| < 80
          then |t.reqs| == |s.reqs| + 1 && id == Some(|s.reqs|) && Holds(t.reqs[|s.reqs|], text, pdu, timeout)
          else t == s && id == None)
  {
    hide HexText, ParseHex, FinalCode, Sendable;
    HexRoundTrip(pdu);
  }

  // ---------------------------------------------------------------- whole runs

  lemma {:induction false} RunSettles(cs: seq<UrcClass>, s: Session, es: seq<Event>)
    requires Owned(cs, s) && Ledger(s) && AllSettled(s) && Happens(cs, s, es)
    ensures AllSettled(Run(cs, s, es)) && Extends(s, Run(cs, s, es))
    decreases |es|
  {
    hide Ledger, Settled, Next;
    if es != [] {
      NextKeeps(cs, s, es[0]);
      NextSettles(cs, s, es[0]);
      RunSettles(cs, Next(cs, s, es[0]), es[1..]);
    }
  }

  /** After every run, a request is completed exactly when it is ready; then its result is the code of its last line if
      that has one, and else it has failed without any line that has one. */
  lemma ResultsExact(cs: seq<UrcClass>, es: seq<Event>, i: nat)
    requires Happens(cs, Opened(), es) && i < |Run(cs, Opened(), es).reqs|
    ensures var s := Run(cs, Opened(), es); var r := s.reqs[i];
      && (i in s.completed ==>
            if r.lines != [] && FinalCode(r.lines[|r.lines| - 1]) != RESP_UNKNOWN
            then r.err == FinalCode(r.lines[|r.lines| - 1])
            else r.err == 102)
      && (forall k :: 0 <= k < |r.lines| && FinalCode(r.lines[k]) != RESP_UNKNOWN ==>
            k + 1 == |r.lines| && i in s.completed)
  {
    hide Run, Happens, FinalCode, UrcLedger, Counted, Bounded;
    OpenedLedger();
    RunKeeps(cs, Opened(), es);
    RunSettles(cs, Opened(), es);
    SettledMeaning(Run(cs, Opened(), es).reqs[i]);
  }

  lemma SettledMeaning(r: Request)
    requires Settled(r)
    ensures r.ready ==>
      if r.lines != [] && FinalCode(r.lines[|r.lines| - 1]) != RESP_UNKNOWN
      then r.err == FinalCode(r.lines[|r.lines| - 1]) else r.err == RESP_FAILED
    ensures forall k :: 0 <= k < |r.lines| && FinalCode(r.lines[k]) != RESP_UNKNOWN ==> k + 1 == |r.lines| && r.ready
  {
    hide FinalCode;
    if r.lines != [] {
      var init := r.lines[..|r.lines| - 1];
      assert forall k :: 0 <= k < |init| ==> init[k] == r.lines[k];
    }
  }

  /** The submissions of a run that fit a request. */
  function Accepted(es: seq<Event>): (r: seq<Event>)
    ensures forall k :: 0 <= k < |r| ==> r[k].Submitted?
  {
    if es == [] then []
    else (if es[0].Submitted? && |es[0].text| < 80 then [es[0]] else []) + Accepted(es[1..])
  }

  ghost predicate IsOf(r: Request, e: Event)
    requires e.Submitted?
  {
    Holds(r, e.text, e.pdu, e.timeout)
  }

  lemma {:induction false} RunHolds(cs: seq<UrcClass>, s: Session, es: seq<Event>)
    requires Owned(cs, s) && Ledger(s) && Happens(cs, s, es)
    ensures var t := Run(cs, s, es); var a := Accepted(es);
      && |t.reqs| == |s.reqs| + |a|
      && (forall i :: 0 <= i < |s.reqs| ==> Same(s.reqs[i], t.reqs[i]))
      && (forall k :: 0 <= k < |a| ==> IsOf(t.reqs[|s.reqs| + k], a[k]))
    decreases |es|
  {
    hide Ledger, Settled, Next, Submit;
    if es != [] {
      var e, u := es[0], Next(cs, s, es[0]);
      NextKeeps(cs, s, e);
      NextSettles(cs, s, e);
      if e.Submitted? { NextIsSubmit(cs, s, e); SubmitSettles(cs, s, e.text, e.pdu, e.timeout); }
      RunHolds(cs, u, es[1..]);
      MoreHolds(s, u, Run(cs, s, es), e, Accepted(es[1..]));
    }
  }

  lemma NextIsSubmit(cs: seq<UrcClass>, s: Session, e: Event)
    requires Owned(cs, s) && Enabled(s, e) && e.Submitted?
    ensures Next(cs, s, e) == Submit(cs, s, e.text, e.pdu, e.timeout).0
  {
  }

  lemma MoreHolds(s: Session, u: Session, t: Session, e: Event, a: seq<Event>)
    requires Extends(s, u) && (forall k :: 0 <= k < |a| ==> a[k].Submitted?)
    requires |u.reqs| == |s.reqs| + if e.Submitted? && |e.text| < 80 then 1 else 0
    requires e.Submitted? && |e.text| < 80 ==> IsOf(u.reqs[|s.reqs|], e)
    requires |t.reqs| == |u.reqs| + |a|
    requires forall i :: 0 <= i < |u.reqs| ==> Same(u.reqs[i], t.reqs[i])
    requires forall k :: 0 <= k < |a| ==> IsOf(t.reqs[|u.reqs| + k], a[k])
    ensures forall i :: 0 <= i < |s.reqs| ==> Same(s.reqs[i], t.reqs[i])
    ensures var all := (if e.Submitted? && |e.text| < 80 then [e] else []) + a;
      && |t.reqs| == |s.reqs| + |all|
      && forall k :: 0 <= k < |all| ==> all[k].Submitted? && IsOf(t.reqs[|s.reqs| + k], all[k])
  {
    hide ParseHex;
    var all := (if e.Submitted? && |e.text| < 80 then [e] else []) + a;
    forall k | 0 <= k < |all| ensures all[k].Submitted? && IsOf(t.reqs[|s.reqs| + k], all[k]) {
      var d := |all| - |a|;
      if k < d {
        assert Same(u.reqs[|s.reqs|], t.reqs[|s.reqs|]);
      } else {
        assert all[k] == a[k - d] && |s.reqs| + k == |u.reqs| + (k - d);
      }
    }
  }

  /** After every run the requests are the submissions that fitted, in order, each with its command, PDU and timeout. */
  lemma RequestsAreSubmissions(cs: seq<UrcClass>, es: seq<Event>)
    requires Happens(cs, Opened(), es)
    ensures var s := Run(cs, Opened(), es); var a := Accepted(es);
      |s.reqs| == |a| && forall k :: 0 <= k < |a| ==> IsOf(s.reqs[k], a[k])
  {
    hide Run, Happens, IsOf;
    OpenedLedger();
    RunHolds(cs, Opened(), es);
    var a := Accepted(es);
    assert forall k :: 0 <= k < |a| ==> IsOf(Run(cs, Opened(), es).reqs[0 + k], a[k]);
  }
}
