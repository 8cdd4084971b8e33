/**
 What a well-behaved modem and the engine say to each other: unsolicited lines, the echo of the command, framed response
 lines and a final result code, with the PDU prompt and its echo in between for a message.  Whatever the cuts between
 reads, and whatever the buffer held before, the request completes with exactly the lines that were sent.
 */
module SessionExchange {
  import opened Text
  import opened Session
  import opened SessionChunking
  import opened SessionMemory
  import opened SessionReads
  import opened SessionTurns
  import opened SessionNotices

  const PROMPT: string := "\r\n> "

  function Frame(line: string): string { CRLF + line + CRLF }

  function Frames(lines: seq<string>): string
  {
    if lines == [] then "" else Frame(lines[0]) + Frames(lines[1..])
  }

  ghost predicate Plain(line: string)
  {
    (forall k :: !CrLfAt(line, k)) && !("> " <= line)
  }

  /** An information line: not a result code either. */
  ghost predicate Info(line: string) { Plain(line) && FinalCode(line) == RESP_UNKNOWN }

  ghost predicate AllInfo(lines: seq<string>)
  {
    forall k :: 0 <= k < |lines| ==> Info(lines[k])
  }

  ghost predicate Final(line: string) { Plain(line) && FinalCode(line) != RESP_UNKNOWN }

  // ---------------------------------------------------------------- one turn of the loop

  lemma EchoPasses(cs: seq<UrcClass>, s: Session, rest: string)
    requires s.state == AwaitingEcho && Owned(cs, s) && Ready(cs, s, s.reqs[s.current.value].text + rest)
    ensures var r := s.reqs[s.current.value];
      Passes(cs, s, r.text, ChangeState(s, ReadingResponse, After(r.timeout)), rest)
  {
    hide MatchUrc, Passes;
    var r := s.reqs[s.current.value];
    FedReady(cs, s, r.text, rest);
    assert Fed(s, r.text + rest).buf == r.text + rest;
    TakesPlainTurn(cs, s, r.text, ChangeState(s, ReadingResponse, After(r.timeout)), rest);
  }

  lemma PromptConsumed(cs: seq<UrcClass>, s: Session, rest: string)
    requires s.state == ReadingResponse && Ready(cs, s, PROMPT + rest) && s.reqs[s.current.value].pdu.Some?
    ensures var t := ChangeState(Write(s, Pdu(s.current.value)), AwaitingSmsEcho, After(SMS_ECHO_TIMEOUT));
      Consumes(cs, s, PROMPT, t, rest)
  {
    hide MatchUrc, MatchUrcCont, EndLine, MatchEcho, Sendable;
    FedReady(cs, s, PROMPT, rest);
    var b := PROMPT + rest;
    assert b[0] == '\r' && b[1] == '\n' && b[2] == '>' && b[3] == ' ';
    assert ResponseBegin(b) == 2 && PromptAt(b, 2);
    FedOwned(cs, ChangeState(Write(s, Pdu(s.current.value)), AwaitingSmsEcho, After(SMS_ECHO_TIMEOUT)), rest);
  }

  /** A prompt for a request without a PDU is answered with Escape, and the response is read on. */
  lemma PromptRefused(cs: seq<UrcClass>, s: Session, rest: string)
    requires s.state == ReadingResponse && Ready(cs, s, PROMPT + rest) && s.reqs[s.current.value].pdu == None
    ensures Passes(cs, s, PROMPT, Write(s, Escape), rest)
  {
    hide MatchUrc, MatchUrcCont, EndLine, MatchEcho, Sendable, Passes;
    FedReady(cs, s, PROMPT, rest);
    var b := PROMPT + rest;
    assert b[0] == '\r' && b[1] == '\n' && b[2] == '>' && b[3] == ' ';
    assert ResponseBegin(b) == 2 && PromptAt(b, 2);
    FedOwned(cs, Write(s, Escape), rest);
    TakesTurn(cs, s, PROMPT, Write(s, Escape), rest);
  }

  lemma PduEchoPasses(cs: seq<UrcClass>, s: Session, rest: string)
    requires s.state == AwaitingSmsEcho && Owned(cs, s)
    requires Ready(cs, s, s.reqs[s.current.value].pdu.value + rest)
    ensures Passes(cs, s, s.reqs[s.current.value].pdu.value,
                   ChangeState(Write(s, CtrlZ), AwaitingSmsEcho1A, Keep), rest)
  {
    hide Passes;
    var pdu := s.reqs[s.current.value].pdu.value;
    FedReady(cs, s, pdu, rest);
    assert Fed(s, pdu + rest).buf == pdu + rest;
    TakesPlainTurn(cs, s, pdu, ChangeState(Write(s, CtrlZ), AwaitingSmsEcho1A, Keep), rest);
  }

  lemma CtrlZPasses(cs: seq<UrcClass>, s: Session, rest: string)
    requires s.state == AwaitingSmsEcho1A && Ready(cs, s, CTRL_Z + rest)
    ensures Passes(cs, s, CTRL_Z, ChangeState(s, ReadingResponse, After(s.reqs[s.current.value].timeout)), rest)
  {
    hide Passes, Sendable;
    FedReady(cs, s, CTRL_Z, rest);
    assert Fed(s, CTRL_Z + rest).buf == CTRL_Z + rest;
    TakesPlainTurn(cs, s, CTRL_Z, ChangeState(s, ReadingResponse, After(s.reqs[s.current.value].timeout)), rest);
  }

  lemma FrameScanned(line: string, rest: string)
    requires Plain(line)
    ensures ScanResponse(Frame(line) + rest) == Line(line, |line| + 2)
  {
    var b := Frame(line) + rest;
    assert b[0] == '\r' && b[1] == '\n';
    assert forall k :: 0 <= k < |line| ==> b[2 + k] == line[k];
    assert b[2 + |line|] == '\r' && b[3 + |line|] == '\n';
    assert CrLfAt(b, 2 + |line|);
    forall i | 2 <= i < 2 + |line| ensures !CrLfAt(b, i) {
      assert !CrLfAt(line, i - 2);
    }
    assert !PromptAt(b, 2) by {
      if |line| >= 2 { assert line[..2] == [line[0], line[1]]; assert "> " <= line <==> line[..2] == "> "; }
    }
    assert b[2..2 + |line|] == line;
  }

  /** What can be in front of a response line: a CR, a LF behind it or without it, or neither. */
  ghost predicate IsLead(lead: string, line: string)
  {
    || (lead == "" && line != "" && line[0] != '\r' && line[0] != '\n')
    || (lead == "\r" && (line == "" || line[0] != '\n'))
    || lead == "\n" || lead == CRLF
  }

  lemma LeadSkipped(lead: string, line: string, rest: string)
    requires IsLead(lead, line) && Plain(line)
    ensures var b := lead + (line + CRLF) + rest;
      ResponseBegin(b) == |lead| && !PromptAt(b, |lead|)
  {
    var b, l := lead + (line + CRLF) + rest, line + CRLF;
    assert forall k :: 0 <= k < |lead| ==> b[k] == lead[k];
    assert b[|lead|] == l[0] && b[|lead| + 1] == l[1];
    if |line| >= 2 { assert line[..2] == [line[0], line[1]]; assert "> " <= line <==> line[..2] == "> "; }
  }

  /** The search for its end starts at the third character: the line is read exactly when its CR LF is not in front of
      that. */
  lemma LineScannedExactly(lead: string, line: string, rest: string)
    requires IsLead(lead, line) && Plain(line)
    ensures var b := lead + (line + CRLF) + rest;
      (exists e :: ScanResponse(b) == ResponseScan.Line(line, e)) <==> |lead| + |line| >= 2
  {
    hide Plain, IsLead, PromptAt, ResponseBegin;
    var b, n := lead + (line + CRLF) + rest, |lead| + |line|;
    LeadSkipped(lead, line, rest);
    assert NoCrLf(line) by { PlainHasNone(line); }
    LineEndFound(lead, line, rest);
    if n >= 2 {
      FoundLater(b, |lead|, 2, n);
      assert ScanResponse(b) == ResponseScan.Line(line, n);
    }
  }

  lemma PlainHasNone(line: string)
    requires Plain(line)
    ensures NoCrLf(line)
  {
  }

  lemma FoundLater(b: string, from: nat, later: nat, e: nat)
    requires from <= later <= e && from <= |b| && FindCrLf(b, from) == Some(e)
    ensures later <= |b| && FindCrLf(b, later).Some? && FindCrLf(b, later).value == e
  {
    FoundFirst(b, later, e);
  }

  lemma LineConsumed(cs: seq<UrcClass>, s: Session, line: string, rest: string)
    requires s.state == ReadingResponse && Ready(cs, s, Frame(line) + rest) && Plain(line)
    ensures Consumes(cs, s, Frame(line), EndLine(cs, s, line), rest)
  {
    FedReady(cs, s, Frame(line), rest);
    FrameScanned(line, rest);
    FrameMatched(cs, s, line, Frame(line) + rest);
    FedOwned(cs, EndLine(cs, s, line), rest);
  }

  lemma FrameMatched(cs: seq<UrcClass>, s: Session, line: string, b: string)
    requires s.state == ReadingResponse && Owned(cs, s) && s.buf == "" && Owned(cs, Fed(s, b))
    requires ScanResponse(b) == Line(line, |line| + 2)
    ensures Match(cs, Fed(s, b)) == (Fed(EndLine(cs, s, line), b), |Frame(line)|)
    ensures !PromptAt(b, ResponseBegin(b))
  {
    hide ScanResponse, EndLine, Owned, MatchUrc, MatchUrcCont, MatchEcho, ResponseBegin, PromptAt;
    EndLineExtends(cs, s, line, b);
    assert Fed(s, b).buf == b;
  }

  /** The echo of a PDU, or of Ctrl-Z, is waited for whatever else comes: the timer is the only way out. */
  lemma OnlyTheEcho(cs: seq<UrcClass>, s: Session, bytes: string)
    requires Owned(cs, s) && Fits(s, bytes) && (s.state == AwaitingSmsEcho || s.state == AwaitingSmsEcho1A)
    ensures var sent := if s.state == AwaitingSmsEcho then s.reqs[s.current.value].pdu.value else CTRL_Z;
      Receive(cs, s, bytes) == Fed(s, bytes) <==> !(sent <= s.buf + bytes)
  {
    hide Drain, MatchUrc, MatchUrcCont, MatchResponse;
    FedOwned(cs, s, bytes);
    ReceiveIsDrain(cs, s, bytes);
    assert s.state == AwaitingSmsEcho ==> s.reqs[s.current.value].pdu.value != "";
    if Match(cs, Fed(s, bytes)).1 == 0 { DrainStops(cs, Fed(s, bytes)); } else { DrainTurn(cs, Fed(s, bytes)); }
  }

  // ---------------------------------------------------------------- the response

  /** The session after request i has completed with these lines. */
  function Answered(s: Session, i: nat, lines: seq<string>, final: string): Session
    requires i < |s.reqs|
  {
    var r := s.reqs[i].(lines := s.reqs[i].lines + lines + [final], err := FinalCode(final), ready := true);
    s.(state := Idle, timer := None, current := None, reqs := s.reqs[i := r],
       completions := s.completions + [i], completed := s.completed + [i])
  }

  lemma FinalLeads(cs: seq<UrcClass>, s: Session, final: string)
    requires s.state == ReadingResponse && Owned(cs, s) && Ready(cs, s, Frame(final)) && Final(final)
    ensures Leads(cs, s, Frame(final), Answered(s, s.current.value, [], final))
  {
    hide Drain, Orderly, Match, Consumes, Frame, Passes, Leads;
    var t := EndLine(cs, s, final);
    assert Frame(final) + "" == Frame(final);
    LineConsumed(cs, s, final, "");
    TakesTurn(cs, s, Frame(final), t, "");
    assert s.reqs[s.current.value].lines + [] + [final] == s.reqs[s.current.value].lines + [final];
    assert t == Answered(s, s.current.value, [], final);
    LeadsNowhere(cs, t);
    PassesThenLeads(cs, s, Frame(final), t, "", t);
  }

  lemma LinePasses(cs: seq<UrcClass>, s: Session, line: string, rest: string)
    requires s.state == ReadingResponse && Ready(cs, s, Frame(line) + rest) && Info(line)
    ensures Passes(cs, s, Frame(line), EndLine(cs, s, line), rest) && Ready(cs, EndLine(cs, s, line), rest)
  {
    hide EndLine, Consumes, Passes, Frame;
    LineConsumed(cs, s, line, rest);
    TakesTurn(cs, s, Frame(line), EndLine(cs, s, line), rest);
    PassesReady(cs, s, Frame(line), EndLine(cs, s, line), rest);
  }

  lemma AnsweredAfter(cs: seq<UrcClass>, s: Session, line: string, lines: seq<string>, final: string)
    requires s.state == ReadingResponse && Owned(cs, s) && Info(line)
    ensures EndLine(cs, s, line).current == s.current && EndLine(cs, s, line).state == ReadingResponse
    ensures Answered(EndLine(cs, s, line), s.current.value, lines, final)
         == Answered(s, s.current.value, [line] + lines, final)
  {
    var ls := s.reqs[s.current.value].lines;
    assert ls + [line] + lines + [final] == ls + ([line] + lines) + [final];
  }

  function Response(lines: seq<string>, final: string): string { Frames(lines) + Frame(final) }

  lemma ResponseParts(lines: seq<string>, final: string)
    ensures Response([], final) == Frame(final)
    ensures lines != [] ==> Response(lines, final) == Frame(lines[0]) + Response(lines[1..], final)
  {
  }

  lemma {:induction false} ResponseLeads(cs: seq<UrcClass>, s: Session, lines: seq<string>, final: string)
    requires s.state == ReadingResponse && Owned(cs, s) && Ready(cs, s, Response(lines, final))
    requires AllInfo(lines) && Final(final)
    ensures Leads(cs, s, Response(lines, final), Answered(s, s.current.value, lines, final))
    decreases |lines|
  {
    hide Passes, Leads, Answered, EndLine, Frame, Response, Final, AllInfo, Info;
    ResponseParts(lines, final);
    if lines == [] {
      FinalLeads(cs, s, final);
    } else {
      AllButFirst(lines);
      var t, i := EndLine(cs, s, lines[0]), s.current.value;
      LinePasses(cs, s, lines[0], Response(lines[1..], final));
      AnsweredAfter(cs, s, lines[0], lines[1..], final);
      ResponseLeads(cs, t, lines[1..], final);
      PassesThenLeads(cs, s, Frame(lines[0]), t, Response(lines[1..], final), Answered(s, i, lines, final));
    }
  }

  lemma AllButFirst(lines: seq<string>)
    requires AllInfo(lines) && lines != []
    ensures Info(lines[0]) && AllInfo(lines[1..]) && [lines[0]] + lines[1..] == lines
  {
  }

  // ---------------------------------------------------------------- the whole exchange

  /** What is in front of the response: notices, and the echo of the command in hand. */
  function Opening(s: Session, codes: seq<Notice>): string
    requires s.current.Some? && s.current.value < |s.reqs|
  {
    Texts(codes) + s.reqs[s.current.value].text
  }

  /** The echo is awaited, and can be told from the notices. */
  ghost predicate Asks(cs: seq<UrcClass>, s: Session, codes: seq<Notice>)
  {
    Hears(cs, s) && s.state == AwaitingEcho && AllNotices(cs, codes) && NoneIsEcho(s, codes)
  }

  /** The session that reads the response. */
  function Listening(s: Session, us: seq<Urc>): (t: Session)
    requires s.current.Some? && s.current.value < |s.reqs|
  {
    ChangeState(Told(s, us), ReadingResponse, After(s.reqs[s.current.value].timeout))
  }

  lemma ListeningIs(s: Session, us: seq<Urc>)
    requires s.current.Some? && s.current.value < |s.reqs|
    ensures Listening(s, us) == ChangeState(WithCodes(s, us), ReadingResponse, After(s.reqs[s.current.value].timeout))
  {
  }

  lemma OpeningPasses(cs: seq<UrcClass>, s: Session, codes: seq<Notice>, rest: string)
    requires Asks(cs, s, codes) && Ready(cs, s, Opening(s, codes) + rest)
    ensures var t := Listening(s, Known(cs, codes));
      && Passes(cs, s, Opening(s, codes), t, rest) && Ready(cs, t, rest)
      && t.state == ReadingResponse && t.current == s.current && t.reqs == s.reqs
  {
    hide Passes, Told, Texts, Known, AllNotices, NoneIsEcho, Consumes, Sendable;
    var text, us := s.reqs[s.current.value].text, Known(cs, codes);
    var t, r := Told(s, us), Listening(s, us);
    assert Opening(s, codes) + rest == Texts(codes) + (text + rest);
    NoticesPass(cs, s, codes, text + rest);
    ToldHears(cs, s, Texts(codes), us, text + rest);
    EchoPasses(cs, t, rest);
    PassesReady(cs, t, text, r, rest);
    PassesBoth(cs, s, Texts(codes), t, text, r, rest);
  }

  lemma AnsweredFrom(s: Session, t: Session, i: nat, lines: seq<string>, final: string)
    requires i < |s.reqs| && t == s.(state := t.state, timer := t.timer)
    ensures Answered(t, i, lines, final) == Answered(s, i, lines, final)
  {
  }

  /** A command, its echo, its response. */
  lemma CommandLeads(cs: seq<UrcClass>, s: Session, codes: seq<Notice>, lines: seq<string>, final: string)
    requires Asks(cs, s, codes) && Ready(cs, s, Opening(s, codes) + Response(lines, final))
    requires AllInfo(lines) && Final(final)
    ensures Leads(cs, s, Opening(s, codes) + Response(lines, final),
                  Answered(WithCodes(s, Known(cs, codes)), s.current.value, lines, final))
    ensures Match(cs, s).1 == 0
  {
    hide Passes, Leads, Match, Told, WithCodes, Opening, Known, AllNotices, NoneIsEcho;
    hide Response, AllInfo, Final, Answered, Listening, Sendable;
    var us, i := Known(cs, codes), s.current.value;
    var t := Listening(s, us);
    OpeningPasses(cs, s, codes, Response(lines, final));
    ResponseLeads(cs, t, lines, final);
    ListeningIs(s, us);
    AnsweredFrom(WithCodes(s, us), t, i, lines, final);
    PassesThenLeads(cs, s, Opening(s, codes), t, Response(lines, final), Answered(t, i, lines, final));
    LeadsNowhere(cs, s);
  }

  /** However the bytes are cut into reads, and however many unsolicited lines come before the echo, the request is
      answered with its lines and its code, and each known line is queued once. */
  lemma CommandAnswered(cs: seq<UrcClass>, s: Session, codes: seq<Notice>, lines: seq<string>, final: string,
                        chunks: seq<string>)
    requires Asks(cs, s, codes) && Ready(cs, s, Joined(chunks))
    requires Joined(chunks) == Opening(s, codes) + Response(lines, final)
    requires AllInfo(lines) && Final(final)
    ensures ReceiveAll(cs, s, chunks) == Answered(WithCodes(s, Known(cs, codes)), s.current.value, lines, final)
  {
    hide Match, Opening, Known, Response, AllInfo, Final, Answered, ReceiveAll, AllNotices, Leads;
    CommandLeads(cs, s, codes, lines, final);
    LeadsInAnyCut(cs, s, chunks, Answered(WithCodes(s, Known(cs, codes)), s.current.value, lines, final));
  }

  /** The same of the buffer in memory, whatever is behind its NUL. */
  lemma CommandAnsweredInMemory(cs: seq<UrcClass>, s: Session, m: string, codes: seq<Notice>, lines: seq<string>,
                                final: string, chunks: seq<string>)
    returns (w: string)
    requires Asks(cs, s, codes) && Ready(cs, s, Joined(chunks)) && Holds(s, m)
    requires Joined(chunks) == Opening(s, codes) + Response(lines, final)
    requires AllInfo(lines) && Final(final)
    ensures ReadsEnd(cs, s, m, chunks,
                     (Answered(WithCodes(s, Known(cs, codes)), s.current.value, lines, final), w))
  {
    hide Match, Opening, Known, Response, AllInfo, Final, Answered, AllNotices, Leads, Holds, ReadsEnd;
    CommandLeads(cs, s, codes, lines, final);
    w := LeadsInMemory(cs, s, m, chunks, Answered(WithCodes(s, Known(cs, codes)), s.current.value, lines, final));
  }

  // ---------------------------------------------------------------- a message

  /** What comes between the echo of the command and the response: prompt, PDU and Ctrl-Z. */
  function MessagePart(pdu: string): string { PROMPT + pdu + CTRL_Z }

  /** The session in which the PDU of its request, then Ctrl-Z, are written. */
  function Written(s: Session): Session
    requires s.current.Some?
  {
    s.(tx := s.tx + [Pdu(s.current.value)] + [CtrlZ])
  }

  /** The session that reads the response to a message. */
  function Delivered(t: Session): Session
    requires t.current.Some? && t.current.value < |t.reqs|
  {
    ChangeState(Written(t), ReadingResponse, After(t.reqs[t.current.value].timeout))
  }

  lemma PromptPasses(cs: seq<UrcClass>, t: Session, rest: string)
    requires t.state == ReadingResponse && Owned(cs, t) && t.reqs[t.current.value].pdu.Some?
    requires Ready(cs, t, MessagePart(t.reqs[t.current.value].pdu.value) + rest)
    ensures Passes(cs, t, MessagePart(t.reqs[t.current.value].pdu.value), Delivered(t), rest)
    ensures Ready(cs, Delivered(t), rest)
  {
    hide Passes, Consumes, Sendable;
    var i := t.current.value;
    var pdu := t.reqs[i].pdu.value;
    assert MessagePart(pdu) + rest == PROMPT + (pdu + (CTRL_Z + rest));
    PromptConsumed(cs, t, pdu + (CTRL_Z + rest));
    var t2 := ChangeState(Write(t, Pdu(i)), AwaitingSmsEcho, After(SMS_ECHO_TIMEOUT));
    TakesTurn(cs, t, PROMPT, t2, pdu + (CTRL_Z + rest));
    PassesReady(cs, t, PROMPT, t2, pdu + (CTRL_Z + rest));
    PduEchoPasses(cs, t2, CTRL_Z + rest);
    var t3 := ChangeState(Write(t2, CtrlZ), AwaitingSmsEcho1A, Keep);
    PassesReady(cs, t2, pdu, t3, CTRL_Z + rest);
    CtrlZPasses(cs, t3, rest);
    PassesReady(cs, t3, CTRL_Z, Delivered(t), rest);
    assert pdu + CTRL_Z + rest == pdu + (CTRL_Z + rest);
    PassesBoth(cs, t2, pdu, t3, CTRL_Z, Delivered(t), rest);
    PassesBoth(cs, t, PROMPT, t2, pdu + CTRL_Z, Delivered(t), rest);
    assert PROMPT + (pdu + CTRL_Z) == MessagePart(pdu);
  }

  lemma DeliveredIs(s: Session, us: seq<Urc>)
    requires s.current.Some? && s.current.value < |s.reqs|
    ensures Delivered(Listening(s, us))
         == ChangeState(WithCodes(Written(s), us), ReadingResponse, After(s.reqs[s.current.value].timeout))
  {
  }

  /** A message: the prompt, the PDU and its echo come in between. */
  lemma MessageLeads(cs: seq<UrcClass>, s: Session, codes: seq<Notice>, lines: seq<string>, final: string)
    requires Asks(cs, s, codes) && s.reqs[s.current.value].pdu.Some? && AllInfo(lines) && Final(final)
    requires var b := MessagePart(s.reqs[s.current.value].pdu.value) + Response(lines, final);
      Ready(cs, s, Opening(s, codes) + b)
    ensures var b := MessagePart(s.reqs[s.current.value].pdu.value) + Response(lines, final);
      Leads(cs, s, Opening(s, codes) + b,
            Answered(WithCodes(Written(s), Known(cs, codes)), s.current.value, lines, final))
    ensures Match(cs, s).1 == 0
  {
    hide Passes, Leads, Match, Told, WithCodes, Opening, Known, AllNotices, NoneIsEcho;
    hide Response, AllInfo, Final, Answered, Listening, Sendable, MessagePart;
    var us, i, m := Known(cs, codes), s.current.value, MessagePart(s.reqs[s.current.value].pdu.value);
    var t := Listening(s, us);
    var r := Answered(WithCodes(Written(s), us), i, lines, final);
    OpeningPasses(cs, s, codes, m + Response(lines, final));
    PromptPasses(cs, t, Response(lines, final));
    ResponseLeads(cs, Delivered(t), lines, final);
    DeliveredIs(s, us);
    AnsweredFrom(WithCodes(Written(s), us), Delivered(t), i, lines, final);
    PassesThenLeads(cs, t, m, Delivered(t), Response(lines, final), r);
    PassesThenLeads(cs, s, Opening(s, codes), t, m + Response(lines, final), r);
    LeadsNowhere(cs, s);
  }

  lemma MessageAnswered(cs: seq<UrcClass>, s: Session, codes: seq<Notice>, lines: seq<string>, final: string,
                        chunks: seq<string>)
    requires Asks(cs, s, codes) && Ready(cs, s, Joined(chunks)) && s.reqs[s.current.value].pdu.Some?
    requires Joined(chunks)
          == Opening(s, codes) + (MessagePart(s.reqs[s.current.value].pdu.value) + Response(lines, final))
    requires AllInfo(lines) && Final(final)
    ensures ReceiveAll(cs, s, chunks)
         == Answered(WithCodes(Written(s), Known(cs, codes)), s.current.value, lines, final)
  {
    hide Match, Opening, Known, Response, AllInfo, Final, Answered, ReceiveAll, AllNotices, Leads, MessagePart;
    MessageLeads(cs, s, codes, lines, final);
    LeadsInAnyCut(cs, s, chunks, Answered(WithCodes(Written(s), Known(cs, codes)), s.current.value, lines, final));
  }

  /** The same of the buffer in memory. */
  lemma MessageAnsweredInMemory(cs: seq<UrcClass>, s: Session, m: string, codes: seq<Notice>, lines: seq<string>,
                                final: string, chunks: seq<string>)
    returns (w: string)
    requires Asks(cs, s, codes) && Ready(cs, s, Joined(chunks)) && s.reqs[s.current.value].pdu.Some? && Holds(s, m)
    requires Joined(chunks)
          == Opening(s, codes) + (MessagePart(s.reqs[s.current.value].pdu.value) + Response(lines, final))
    requires AllInfo(lines) && Final(final)
    ensures ReadsEnd(cs, s, m, chunks,
                     (Answered(WithCodes(Written(s), Known(cs, codes)), s.current.value, lines, final), w))
  {
    hide Match, Opening, Known, Response, AllInfo, Final, Answered, AllNotices, Leads, MessagePart, Holds, ReadsEnd;
    MessageLeads(cs, s, codes, lines, final);
    w := LeadsInMemory(cs, s, m, chunks,
                       Answered(WithCodes(Written(s), Known(cs, codes)), s.current.value, lines, final));
  }
}
