/**
 The AT-command session of chan_vgsm/comm.c as a function of its state.

 Requests and unsolicited result codes live in stores (`reqs`, `urcs`) in the order in which they were
 allocated; what refers to one is its position in the store.  The clock is abstracted: a timer remembers the
 interval it was last armed with, and may expire whenever it is armed.
 */
module Session {
  import opened Bits
  import opened Hex
  import opened Text

  const MILLISEC := 1000
  const SEC := 1_000_000
  const ECHO_TIMEOUT := 800 * MILLISEC
  const URC_TIMEOUT := 500 * MILLISEC
  const SMS_ECHO_TIMEOUT := 1 * SEC
  const READING_URC_TIMEOUT := 3 * SEC
  const RECOVERY_TIMEOUT := 1 * SEC
  const BUFFER_SIZE := 2048
  const REQUEST_SIZE := 82
  const MAX_WRITES := 3

  const RESP_UNKNOWN := 100
  const RESP_FAILED := 102
  const CME_ERROR_BASE := 1000
  const CMS_ERROR_BASE := 2000
  const CTRL_Z: string := [26 as char]

  datatype State =
    | Closed | Closing | Failed | Recovering | Idle | ReadingUrc
    | AwaitingSmsEcho | AwaitingSmsEcho1A | AwaitingEcho | AwaitingEchoReadingUrc | ReadingResponse

  datatype Timeout = NoTimeout | Keep | After(delta: nat)

  datatype Request = Request(
    text: string, pdu: Option<string>, timeout: nat, retransmit: int,
    ready: bool, err: int, lines: seq<string>, refcnt: int)

  datatype UrcClass = UrcClass(code: string, multiline: bool, ends: seq<string> -> bool)

  datatype Urc = Urc(cls: nat, lines: seq<string>, refcnt: int)

  /** What the engine writes to the serial port. */
  datatype Tx = Command(id: nat) | Pdu(of: nat) | CtrlZ | Escape | Recovery

  /** Queues and references of the engine, then the histories kept for the theorems. */
  datatype Session = Session(
    state: State, buf: string, timer: Option<nat>,
    reqs: seq<Request>, queue: seq<nat>, current: Option<nat>, completions: seq<nat>,
    urcs: seq<Urc>, currentUrc: Option<nat>, urcQueue: seq<nat>,
    held: set<nat>,              // requests whose submitter has not put its reference yet
    tx: seq<Tx>,                 // everything written, in order
    completed: seq<nat>,         // requests completed so far
    called: seq<nat>,            // completion callbacks run so far
    delivered: seq<nat>,         // unsolicited codes queued for the handler thread so far
    handled: seq<nat>,           // unsolicited codes handled so far
    expiries: seq<Option<nat>>)  // the current request at each timer expiry

  function Opened(): Session
  {
    Session(Idle, "", None, [], [], None, [], [], None, [], {}, [], [], [], [], [], [])
  }

  // ---------------------------------------------------------------- ownership

  predicate IsLive(st: State) { st != Closing && st != Closed }

  /** The states whose matchers may consume input. */
  predicate LiveWithInput(st: State) { IsLive(st) && st != Failed && st != Recovering }

  predicate InCommand(st: State)
  {
    st == AwaitingEcho || st == AwaitingEchoReadingUrc || st == ReadingResponse
    || st == AwaitingSmsEcho || st == AwaitingSmsEcho1A
  }

  predicate InUrc(st: State) { st == ReadingUrc || st == AwaitingEchoReadingUrc }

  predicate IsWaiting(st: State) { InCommand(st) || InUrc(st) || st == Recovering }

  ghost predicate Below(q: seq<nat>, n: nat)
  {
    forall k :: 0 <= k < |q| ==> q[k] < n
  }

  ghost predicate Sendable(r: Request)
  {
    && 0 < |r.text| <= REQUEST_SIZE - 2 && '\0' !in r.text
    && (r.pdu.Some? ==> r.pdu.value != "")
  }

  /** Which references are set, and whether the timer is armed, in each state.  The C assertions
      (lines 633, 817, 898, 911, 1083, 1190) are preconditions below that this makes true. */
  ghost predicate Owned(cs: seq<UrcClass>, s: Session)
  {
    && (s.current.Some? ==> s.current.value < |s.reqs|)
    && (s.currentUrc.Some? ==>
          && s.currentUrc.value < |s.urcs|
          && s.urcs[s.currentUrc.value].cls < |cs|
          && cs[s.urcs[s.currentUrc.value].cls].multiline)
    && (forall i :: 0 <= i < |s.reqs| ==> Sendable(s.reqs[i]))
    && Below(s.queue, |s.reqs|) && Below(s.completions, |s.reqs|) && Below(s.urcQueue, |s.urcs|)
    && (forall i :: i in s.held ==> i < |s.reqs|)
    && |s.buf| < BUFFER_SIZE
    && '\0' !in s.buf
    && (s.timer.Some? <==> IsWaiting(s.state))
    && (IsLive(s.state) ==>
          && (s.currentUrc.Some? <==> InUrc(s.state))
          && (InCommand(s.state) ==> s.current.Some?)
          && (s.state == Idle || s.state == ReadingUrc || s.state == Failed ==> s.current.None?)
          && (s.state == AwaitingSmsEcho ==> s.reqs[s.current.value].pdu.Some?)
          && (s.state == Failed || s.state == Recovering ==> s.buf == ""))
  }

  // ---------------------------------------------------------------- small steps

  function ChangeState(s: Session, st: State, t: Timeout): Session
  {
    s.(state := st,
       timer := match t case NoTimeout => None case Keep => s.timer case After(d) => Some(d))
  }

  function Arm(s: Session, d: nat): Session { s.(timer := Some(d)) }

  function Write(s: Session, x: Tx): Session { s.(tx := s.tx + [x]) }

  function AddRef(s: Session, i: nat, d: int): Session
    requires i < |s.reqs|
  {
    s.(reqs := s.reqs[i := s.reqs[i].(refcnt := s.reqs[i].refcnt + d)])
  }

  /** Mark request i ready, hand a new reference to the completion queue and drop the engine's own. */
  function Complete(s: Session, i: nat, err: int): Session
    requires i < |s.reqs|
  {
    var r := s.reqs[i].(err := err, ready := true, refcnt := s.reqs[i].refcnt + 1 - 1);
    s.(reqs := s.reqs[i := r], completions := s.completions + [i], completed := s.completed + [i])
  }

  function FinalCode(line: string): int
  {
    if line == "OK" then 0
    else if line == "CONNECT" then 1
    else if line == "NO CARRIER" then 2
    else if line == "ERROR" then 3
    else if line == "NO DIALTONE" then 4
    else if line == "BUSY" then 5
    else if line == "NO ANSWER" then 6
    else if "+CME ERROR: " <= line then Atoi(line[|"+CME ERROR: "|..]) + CME_ERROR_BASE
    else if "+CMS ERROR: " <= line then Atoi(line[|"+CMS ERROR: "|..]) + CMS_ERROR_BASE
    else RESP_UNKNOWN
  }

  // ---------------------------------------------------------------- matchers

  /** |sent| when the buffer starts with all of it, 0 when it still may, -1 when it cannot. */
  function MatchEcho(b: string, sent: string): (n: int)
    ensures -1 <= n <= |b| && n <= |sent|
  {
    if sent <= b then |sent| else if b <= sent then 0 else -1
  }

  /** Skips one CR and then one LF at the start of the buffer. */
  function ResponseBegin(b: string): (k: nat)
    ensures k <= |b| && k <= 2
  {
    var k := if |b| > 0 && b[0] == '\r' then 1 else 0;
    if k < |b| && b[k] == '\n' then k + 1 else k
  }

  ghost predicate PromptAt(b: string, k: nat)
  {
    k + 2 <= |b| && b[k] == '>' && b[k + 1] == ' '
  }

  datatype ResponseScan = Partial | Prompt | Line(text: string, end: nat)

  function ScanResponse(b: string): (r: ResponseScan)
    ensures r != Partial ==> b != ""
    ensures r.Line? ==> 2 <= r.end && r.end + 2 <= |b|
    ensures r.Prompt? <==> PromptAt(b, ResponseBegin(b))
  {
    var k := ResponseBegin(b);
    if k + 2 <= |b| && b[k] == '>' && b[k + 1] == ' ' then Prompt
    else if |b| < 2 then Partial
    else match FindCrLf(b, 2)
      case None => Partial
      case Some(e) => Line(b[k..e], e)
  }

  /** A response line for the current request; a final result code completes it. */
  function EndLine(cs: seq<UrcClass>, s: Session, text: string): (r: Session)
    requires Owned(cs, s) && s.state == ReadingResponse
    ensures Owned(cs, r) && r.buf == s.buf && LiveWithInput(r.state)
  {
    var i := s.current.value;
    var s1 := s.(reqs := s.reqs[i := s.reqs[i].(lines := s.reqs[i].lines + [text])]);
    var err := FinalCode(text);
    if err == RESP_UNKNOWN then s1
    else Complete(ChangeState(s1, Idle, NoTimeout), i, err).(current := None)
  }

  function MatchResponse(cs: seq<UrcClass>, s: Session): (r: (Session, nat))
    requires Owned(cs, s) && s.state == ReadingResponse
    ensures Owned(cs, r.0) && r.0.buf == s.buf
    ensures r.1 == 0 ==> r.0 == s
    ensures r.1 > 0 ==> s.buf != "" && LiveWithInput(r.0.state)
  {
    var i := s.current.value;
    match ScanResponse(s.buf)
    case Partial => (s, 0)
    case Prompt =>
      if s.reqs[i].pdu.None? then (Write(s, Escape), 4)
      else (ChangeState(Write(s, Pdu(i)), AwaitingSmsEcho, After(SMS_ECHO_TIMEOUT)), 4)
    case Line(text, e) => (EndLine(cs, s, text), e + 2)
  }

  datatype UrcScan = Wait | Junk | UrcLine(text: string, end: nat)

  /** Where an unsolicited line may start: after CR LF, after CR LF CR LF, or at '+' or '^'. */
  function UrcBegin(b: string): (r: Option<int>)
    ensures r.Some? ==> -1 <= r.value <= |b| && b != ""
  {
    if b == "" then None
    else if b[0] != '\r' then if b[0] == '+' || b[0] == '^' then Some(0) else Some(-1)
    else if |b| == 1 then None
    else if b[1] != '\n' then Some(-1)
    else if |b| == 2 then None
    else if b[2] != '\r' then Some(2)
    else if |b| == 3 then None
    else if b[3] != '\n' then Some(-1)
    else Some(4)
  }

  function ScanUrc(b: string): (r: UrcScan)
    ensures r != Wait ==> b != ""
    ensures r.UrcLine? ==> r.end + 2 <= |b|
  {
    match UrcBegin(b)
    case None => Wait
    case Some(k) =>
      if k < 0 then Junk
      else match FindCrLf(b, k)
        case None => Wait
        case Some(e) => UrcLine(b[k..e], e)
  }

  /** The first class whose code starts the line. */
  function ClassOf(cs: seq<UrcClass>, text: string, from: nat): (r: Option<nat>)
    requires from <= |cs|
    ensures r.Some? ==> from <= r.value < |cs| && cs[r.value].code <= text
    ensures r.Some? ==> forall c :: from <= c < r.value ==> !(cs[c].code <= text)
    ensures r.None? ==> forall c :: from <= c < |cs| ==> !(cs[c].code <= text)
    decreases |cs| - from
  {
    if from == |cs| then None
    else if cs[from].code <= text then Some(from)
    else ClassOf(cs, text, from + 1)
  }

  /** Gives the new code u of class c its owner: the reader of further lines, or the handler queue. */
  function PlaceUrc(cs: seq<UrcClass>, s: Session, c: nat, u: nat): Session
    requires c < |cs|
  {
    var s1 := if s.state == AwaitingEcho then ChangeState(s, AwaitingEcho, After(ECHO_TIMEOUT)) else s;
    if cs[c].multiline then
      var s2 := s1.(currentUrc := Some(u));
      var s3 := if s2.state == AwaitingEcho
                then ChangeState(s2, AwaitingEchoReadingUrc, After(ECHO_TIMEOUT))
                else ChangeState(s2, ReadingUrc, After(READING_URC_TIMEOUT));
      Arm(s3, URC_TIMEOUT)
    else
      s1.(urcQueue := s1.urcQueue + [u], delivered := s1.delivered + [u])
  }

  function StartUrc(cs: seq<UrcClass>, s: Session, c: nat, text: string): (r: Session)
    requires Owned(cs, s) && (s.state == Idle || s.state == AwaitingEcho) && c < |cs|
    ensures Owned(cs, r) && r.buf == s.buf && LiveWithInput(r.state)
  {
    // one reference from the allocation, one for the new owner, minus the one put at the end
    PlaceUrc(cs, s.(urcs := s.urcs + [Urc(c, [text], 1 + 1 - 1)]), c, |s.urcs|)
  }

  function MatchUrc(cs: seq<UrcClass>, s: Session): (r: (Session, nat))
    requires Owned(cs, s) && (s.state == Idle || s.state == AwaitingEcho)
    ensures Owned(cs, r.0) && r.0.buf == s.buf
    ensures r.1 == 0 ==> r.0 == s
    ensures r.1 > 0 ==> s.buf != "" && LiveWithInput(r.0.state)
  {
    match ScanUrc(s.buf)
    case Wait => (s, 0)
    case Junk => (s, 1)
    case UrcLine(text, e) =>
      match ClassOf(cs, text, 0)
      case None => (s, e + 2)
      case Some(c) => (StartUrc(cs, s, c, text), e + 2)
  }

  /** The code u in hand is whole. */
  function EndUrc(s: Session, u: nat): Session
  {
    var s1 := s.(urcQueue := s.urcQueue + [u], delivered := s.delivered + [u], currentUrc := None);
    if s1.state == AwaitingEchoReadingUrc then ChangeState(s1, AwaitingEcho, After(ECHO_TIMEOUT))
    else ChangeState(s1, Idle, NoTimeout)
  }

  /** A further line of the code in hand, which may be its last. */
  function MoreUrc(cs: seq<UrcClass>, s: Session, line: string): (r: Session)
    requires Owned(cs, s) && InUrc(s.state)
    ensures Owned(cs, r) && r.buf == s.buf && LiveWithInput(r.state)
  {
    var u := s.currentUrc.value;
    var urc := s.urcs[u].(lines := s.urcs[u].lines + [line]);
    var s1 := s.(urcs := s.urcs[u := urc]);
    var s2 := if s1.state == AwaitingEchoReadingUrc then Arm(s1, ECHO_TIMEOUT) else s1;
    if cs[urc.cls].ends(urc.lines) then EndUrc(s2, u) else s2
  }

  function MatchUrcCont(cs: seq<UrcClass>, s: Session): (r: (Session, nat))
    requires Owned(cs, s) && InUrc(s.state)
    ensures Owned(cs, r.0) && r.0.buf == s.buf
    ensures r.1 == 0 ==> r.0 == s
    ensures r.1 > 0 ==> s.buf != "" && LiveWithInput(r.0.state)
  {
    match FindCrLf(s.buf, 0)
    case None => (s, 0)
    case Some(e) => (MoreUrc(cs, s, s.buf[..e]), e + 2)
  }

  // ---------------------------------------------------------------- the receive loop

  /** One turn of the receive loop: what it does and how many characters it asks to drop. */
  function Match(cs: seq<UrcClass>, s: Session): (r: (Session, nat))
    requires Owned(cs, s)
    ensures Owned(cs, r.0) && r.0.buf == s.buf
    ensures r.1 == 0 ==> r.0 == s
    ensures r.1 > 0 ==> s.buf != "" && LiveWithInput(s.state) && LiveWithInput(r.0.state)
  {
    match s.state
    case Closed | Closing | Failed | Recovering => (s, 0)
    case Idle => MatchUrc(cs, s)
    case AwaitingEcho =>
      var r := s.reqs[s.current.value];
      var n := MatchEcho(s.buf, r.text);
      if n > 0 then (ChangeState(s, ReadingResponse, After(r.timeout)), n)
      else if n < 0 then MatchUrc(cs, s)
      else (s, 0)
    case ReadingUrc | AwaitingEchoReadingUrc => MatchUrcCont(cs, s)
    case AwaitingSmsEcho =>
      var n := MatchEcho(s.buf, s.reqs[s.current.value].pdu.value);
      if n > 0 then (ChangeState(Write(s, CtrlZ), AwaitingSmsEcho1A, Keep), n) else (s, 0)
    case AwaitingSmsEcho1A =>
      var n := MatchEcho(s.buf, CTRL_Z);
      if n > 0 then (ChangeState(s, ReadingResponse, After(s.reqs[s.current.value].timeout)), n) else (s, 0)
    case ReadingResponse => MatchResponse(cs, s)
  }

  function Pulled(s: Session, n: nat): Session { s.(buf := Pull(s.buf, n)) }

  function Drain(cs: seq<UrcClass>, s: Session): (r: Session)
    requires Owned(cs, s)
    ensures Owned(cs, r)
    ensures |r.buf| <= |s.buf|
    ensures IsLive(s.state) == IsLive(r.state)
    decreases |s.buf|
  {
    var (s1, n) := Match(cs, s);
    if n == 0 then s else Drain(cs, Pulled(s1, n))
  }

  /** read() returned `bytes`, at most the free room; in FAILED and RECOVERING they are thrown away. */
  function Receive(cs: seq<UrcClass>, s: Session, bytes: string): (r: Session)
    requires Owned(cs, s) && |s.buf| + |bytes| < BUFFER_SIZE
    ensures Owned(cs, r)
    ensures |r.buf| <= |s.buf| + |bytes|
    ensures IsLive(s.state) == IsLive(r.state)
  {
    var b := s.buf + UpToNul(bytes);
    if s.state == Failed || s.state == Recovering then s.(buf := Pull(b, |bytes|))
    else Drain(cs, s.(buf := b))
  }

  // ---------------------------------------------------------------- requests and timers

  /** Queues a request; None is the NULL result of a command that does not fit. */
  function Submit(cs: seq<UrcClass>, s: Session, text: string, pdu: seq<octet>, timeout: nat)
    : (r: (Session, Option<nat>))
    requires Owned(cs, s) && '\0' !in text
    ensures Owned(cs, r.0)
  {
    if |text| >= REQUEST_SIZE - 2 then (s, None)
    else
      var id := |s.reqs|;
      var req := Request(text + "\r", if pdu == [] then None else Some(HexText(pdu)),
                         timeout + 100 * MILLISEC, MAX_WRITES, false, 0, [], 1 + 1);
      (s.(reqs := s.reqs + [req], queue := s.queue + [id], held := s.held + {id}), Some(id))
  }

  function ProcessNext(cs: seq<UrcClass>, s: Session): (r: Session)
    requires Owned(cs, s) && s.state == Idle
    ensures Owned(cs, r)
  {
    if s.queue == [] then s
    else
      var s1 := s.(current := Some(s.queue[0]), queue := s.queue[1..]);
      ChangeState(Write(s1, Command(s.queue[0])), AwaitingEcho, After(ECHO_TIMEOUT))
  }

  function Flush(cs: seq<UrcClass>, s: Session): (r: Session)
    requires Owned(cs, s)
    ensures Owned(cs, r)
    decreases |s.queue|
  {
    if s.queue == [] then s
    else
      Flush(cs, Complete(s.(queue := s.queue[1..]), s.queue[0], RESP_FAILED))
  }

  /** The part of a main loop iteration between the timers and poll(). */
  function Serve(cs: seq<UrcClass>, s: Session): (r: Session)
    requires Owned(cs, s)
    ensures Owned(cs, r)
  {
    if s.state == Idle then ProcessNext(cs, s)
    else if s.state == Failed || !IsLive(s.state) then Flush(cs, s)
    else s
  }

  /** The command in hand has one try less: it is written again, or fails with the session. */
  function RetryOf(s: Session): Session
    requires s.current.Some? && s.current.value < |s.reqs|
  {
    var i := s.current.value;
    var s1 := s.(reqs := s.reqs[i := s.reqs[i].(retransmit := s.reqs[i].retransmit - 1)]);
    if s1.reqs[i].retransmit == 0 then
      Complete(ChangeState(s1, Failed, NoTimeout), i, RESP_FAILED).(current := None)
    else
      ChangeState(Write(s1, Command(i)), AwaitingEcho, After(ECHO_TIMEOUT))
  }

  /** The peer fell silent: drop the code in hand and the input, and send the recovery sequence. */
  function LoseSync(s: Session): Session
    requires s.currentUrc.Some? ==> s.currentUrc.value < |s.urcs|
  {
    var s1 := if s.currentUrc.None? then s
              else
                var u := s.currentUrc.value;
                s.(urcs := s.urcs[u := s.urcs[u].(refcnt := s.urcs[u].refcnt - 1)], currentUrc := None);
    Write(ChangeState(s1, Recovering, After(RECOVERY_TIMEOUT)).(buf := ""), Recovery)
  }

  /** The session timer fired; the timer is no longer armed when this runs. */
  function TimerFired(cs: seq<UrcClass>, s: Session): (r: Session)
    requires Owned(cs, s) && s.timer.Some?
    ensures Owned(cs, r)
  {
    var s0 := s.(timer := None, expiries := s.expiries + [s.current]);
    if s.state == Recovering then
      if s.current.None? then ChangeState(s0, Idle, NoTimeout) else RetryOf(s0)
    else LoseSync(s0)
  }

  function CloseAsk(cs: seq<UrcClass>, s: Session): (r: Session)
    requires Owned(cs, s)
    ensures Owned(cs, r)
  {
    ChangeState(s, Closing, NoTimeout)
  }

  function ThreadExit(cs: seq<UrcClass>, s: Session): (r: Session)
    requires Owned(cs, s) && s.state == Closing
    ensures Owned(cs, r)
  {
    ChangeState(s, Closed, NoTimeout)
  }

  function PopCompletion(cs: seq<UrcClass>, s: Session): (r: Session)
    requires Owned(cs, s) && s.completions != []
    ensures Owned(cs, r)
  {
    var i := s.completions[0];
    AddRef(s.(completions := s.completions[1..], called := s.called + [i]), i, -1)
  }

  function PopUrc(cs: seq<UrcClass>, s: Session): (r: Session)
    requires Owned(cs, s) && s.urcQueue != []
    ensures Owned(cs, r)
  {
    var u := s.urcQueue[0];
    s.(urcQueue := s.urcQueue[1..], handled := s.handled + [u],
       urcs := s.urcs[u := s.urcs[u].(refcnt := s.urcs[u].refcnt - 1)])
  }

  function PutByCaller(cs: seq<UrcClass>, s: Session, i: nat): (r: Session)
    requires Owned(cs, s) && i in s.held
    ensures Owned(cs, r)
  {
    AddRef(s.(held := s.held - {i}), i, -1)
  }

  // ---------------------------------------------------------------- interleavings

  datatype Event =
    | Submitted(text: string, pdu: seq<octet>, timeout: nat)  // any thread
    | Served                                                // main loop, before poll()
    | Expired                                               // main loop, timer set
    | Arrived(bytes: string)                                // main loop, serial port readable
    | CloseAsked                                            // main loop, CLOSE message
    | ThreadExited                                          // after the loop
    | CompletionRun                                         // completion thread
    | UrcHandled                                            // URC thread
    | CallerPut(id: nat)                                    // any thread

  predicate Enabled(s: Session, e: Event)
  {
    match e
    case Submitted(text, _, _) => '\0' !in text            // a C string
    case Served => IsLive(s.state)
    case Expired => IsLive(s.state) && s.timer.Some?
    case Arrived(bytes) => IsLive(s.state) && |s.buf| + |bytes| < BUFFER_SIZE
    case CloseAsked => IsLive(s.state)
    case ThreadExited => s.state == Closing && s.completions == [] && s.urcQueue == []
    case CompletionRun => s.completions != []
    case UrcHandled => s.urcQueue != []
    case CallerPut(i) => i in s.held
  }

  function Next(cs: seq<UrcClass>, s: Session, e: Event): (r: Session)
    requires Owned(cs, s) && Enabled(s, e)
    ensures Owned(cs, r)
  {
    match e
    case Submitted(text, pdu, timeout) => Submit(cs, s, text, pdu, timeout).0
    case Served => Serve(cs, s)
    case Expired => TimerFired(cs, s)
    case Arrived(bytes) => Receive(cs, s, bytes)
    case CloseAsked => CloseAsk(cs, s)
    case ThreadExited => ThreadExit(cs, s)
    case CompletionRun => PopCompletion(cs, s)
    case UrcHandled => PopUrc(cs, s)
    case CallerPut(i) => PutByCaller(cs, s, i)
  }

  /** Every sequence of events that can happen, one after the other, from s. */
  ghost predicate Happens(cs: seq<UrcClass>, s: Session, es: seq<Event>)
    requires Owned(cs, s)
    decreases |es|
  {
    es == [] || (Enabled(s, es[0]) && Happens(cs, Next(cs, s, es[0]), es[1..]))
  }

  ghost function Run(cs: seq<UrcClass>, s: Session, es: seq<Event>): (r: Session)
    requires Owned(cs, s) && Happens(cs, s, es)
    ensures Owned(cs, r)
    decreases |es|
  {
    if es == [] then s else Run(cs, Next(cs, s, es[0]), es[1..])
  }

  lemma OneMore(cs: seq<UrcClass>, s: Session, e: Event, rest: seq<Event>)
    requires Owned(cs, s) && Enabled(s, e) && Happens(cs, Next(cs, s, e), rest)
    ensures Happens(cs, s, [e] + rest)
    ensures Run(cs, s, [e] + rest) == Run(cs, Next(cs, s, e), rest)
  {
    assert ([e] + rest)[1..] == rest;
  }
}
