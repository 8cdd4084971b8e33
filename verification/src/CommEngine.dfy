/**
 chan_vgsm/comm.c as it runs: one object whose fields the three threads update under their locks, with the
 NUL-terminated receive buffer in place.  View() is the Session it stands for; every method is proved to move
 it as the function of the same name in Session does.
 */
module CommEngine {
  import opened Bits
  import opened Hex
  import opened Text
  import opened Session
  import opened SessionInvariants
  import opened SessionChunking

  class Comm {
    const classes: seq<UrcClass>
    const buf: array<char>
    var state: State
    var timer: Option<nat>
    var reqs: seq<Request>
    var queue: seq<nat>
    var current: Option<nat>
    var completions: seq<nat>
    var urcs: seq<Urc>
    var currentUrc: Option<nat>
    var urcQueue: seq<nat>

    ghost var text: string              // what is in buf before the terminator
    ghost var held: set<nat>
    ghost var tx: seq<Tx>
    ghost var completed: seq<nat>
    ghost var called: seq<nat>
    ghost var delivered: seq<nat>
    ghost var handled: seq<nat>
    ghost var expiries: seq<Option<nat>>

    ghost predicate Terminated()
      reads this, buf
    {
      && buf.Length == BUFFER_SIZE && |text| < BUFFER_SIZE
      && (forall j :: 0 <= j < |text| ==> buf[j] == text[j] && text[j] != '\0')
      && buf[|text|] == '\0'
    }

    ghost function View(): Session
      reads this
    {
      Session(state, text, timer, reqs, queue, current, completions, urcs, currentUrc, urcQueue,
              held, tx, completed, called, delivered, handled, expiries)
    }

    ghost predicate Valid()
      reads this, buf
    {
      Terminated() && Owned(classes, View())
    }

    /** vgsm_comm_init() followed by vgsm_comm_open(), up to the first line of the main loop. */
    constructor (classes: seq<UrcClass>)
      ensures Valid() && fresh(buf) && this.classes == classes
      ensures View() == Opened()
    {
      this.classes := classes;
      buf := new char[BUFFER_SIZE](_ => '\0');
      state, timer := Idle, None;
      reqs, queue, current, completions := [], [], None, [];
      urcs, currentUrc, urcQueue := [], None, [];
      text, held, tx := "", {}, [];
      completed, called, delivered, handled, expiries := [], [], [], [], [];
    }

    // -------------------------------------------------------------- the buffer

    method Strlen() returns (n: nat)
      requires Terminated()
      ensures n == |text|
    {
      n := 0;
      while buf[n] != '\0'
        invariant n <= |text|
        decreases |text| - n
      {
        n := n + 1;
      }
    }

    /** What read() does to the buffer. */
    method Append(bytes: string)
      requires Terminated() && |text| + |bytes| < BUFFER_SIZE
      modifies buf, `text
      ensures Terminated() && text == old(text) + UpToNul(bytes)
    {
      var n := Strlen();
      CopyBehind(bytes, n);
      ghost var seen := UpToNul(bytes);
      NulEnds(bytes);
      forall j | 0 <= j < |seen| ensures buf[n + j] == seen[j] && seen[j] != '\0' {
        assert seen[j] == bytes[j];
      }
      text := text + seen;
    }

    method CopyBehind(bytes: string, n: nat)
      requires n + |bytes| < buf.Length
      modifies buf
      ensures forall j :: 0 <= j < n ==> buf[j] == old(buf[j])
      ensures forall j :: 0 <= j < |bytes| ==> buf[n + j] == bytes[j]
      ensures buf[n + |bytes|] == '\0'
    {
      var k := 0;
      while k < |bytes|
        modifies buf
        invariant k <= |bytes|
        invariant forall j :: 0 <= j < n ==> buf[j] == old(buf[j])
        invariant forall j :: 0 <= j < k ==> buf[n + j] == bytes[j]
      {
        buf[n + k] := bytes[k];
        k := k + 1;
      }
      buf[n + k] := '\0';
    }

    /** The memmove() at the end of each turn of the receive loop. */
    method DropFront(n: nat)
      requires Terminated()
      modifies buf, `text
      ensures Terminated() && text == Pull(old(text), n)
    {
      var len := Strlen();
      if n >= len {
        buf[0] := '\0';
      } else {
        var k := 0;
        while k <= len - n
          modifies buf
          invariant k <= len - n + 1
          invariant forall j :: 0 <= j < k ==> buf[j] == old(buf[n + j])
          invariant forall j :: k <= j < buf.Length ==> buf[j] == old(buf[j])
        {
          buf[k] := buf[n + k];
          k := k + 1;
        }
      }
      text := Pull(text, n);
    }

    method CompareEcho(sent: string) returns (n: int)
      requires Terminated()
      ensures n == MatchEcho(text, sent)
    {
      n := 0;
      while buf[n] != '\0' && n < |sent| && buf[n] == sent[n]
        invariant 0 <= n <= |text| && n <= |sent|
        invariant text[..n] == sent[..n]
        decreases |sent| - n
      {
        n := n + 1;
      }
      if n == |sent| {
        assert sent == text[..n];
      } else if buf[n] == '\0' {
        assert n == |text|;
        assert text == sent[..n];
        assert sent <= text ==> |sent| <= |text|;
        n := 0;
      } else {
        assert text[n] != sent[n];
        n := -1;
      }
    }

    /** strstr(buf + from, "\r\n"). */
    method FindLineEnd(from: nat) returns (r: Option<nat>)
      requires Terminated() && from <= |text|
      ensures r == FindCrLf(text, from)
    {
      var i := from;
      while buf[i] != '\0'
        invariant from <= i <= |text|
        invariant FindCrLf(text, from) == FindCrLf(text, i)
        decreases |text| - i
      {
        if buf[i] == '\r' && buf[i + 1] == '\n' { return Some(i); }
        i := i + 1;
      }
      return None;
    }

    /** strcpy() of a line up to its end. */
    method CopyLine(from: nat, end: nat) returns (line: string)
      requires Terminated() && from <= end <= |text|
      ensures line == text[from..end]
    {
      line := buf[from..end];
    }

    // -------------------------------------------------------------- references, states, completion

    method ReqGet(i: nat)
      requires i < |reqs|
      modifies `reqs
      ensures View() == AddRef(old(View()), i, 1)
    {
      reqs := reqs[i := reqs[i].(refcnt := reqs[i].refcnt + 1)];
    }

    method ReqPut(i: nat)
      requires i < |reqs|
      modifies `reqs
      ensures View() == AddRef(old(View()), i, -1)
    {
      reqs := reqs[i := reqs[i].(refcnt := reqs[i].refcnt - 1)];
    }

    method SetState(st: State, t: Timeout)
      modifies `state, `timer
      ensures View() == ChangeState(old(View()), st, t)
    {
      match t {
        case NoTimeout => timer := None;
        case After(d) => timer := Some(d);
        case Keep =>
      }
      state := st;
    }

    method CompleteRequest(i: nat, err: int)
      requires i < |reqs|
      modifies `reqs, `completions, `completed
      ensures View() == Complete(old(View()), i, err)
    {
      reqs := reqs[i := reqs[i].(err := err)];
      reqs := reqs[i := reqs[i].(ready := true)];
      ReqGet(i);
      completions, completed := completions + [i], completed + [i];
      ReqPut(i);
    }

    // -------------------------------------------------------------- matchers

    method ScanForResponse() returns (r: ResponseScan)
      requires Terminated()
      ensures r == ScanResponse(text)
    {
      var begin := 0;
      if buf[begin] == '\0' { return Partial; }
      if buf[begin] == '\r' { begin := begin + 1; }
      if buf[begin] == '\0' { return Partial; }
      if buf[begin] == '\n' { begin := begin + 1; }
      assert begin == ResponseBegin(text);
      if buf[begin] == '>' && buf[begin + 1] == ' ' { return Prompt; }
      var len := Strlen();
      if len < 2 { return Partial; }
      var end := FindLineEnd(2);
      if end.None? { return Partial; }
      var line := CopyLine(begin, end.value);
      return Line(line, end.value);
    }

    method TakeLine(line: string)
      requires Owned(classes, View()) && state == ReadingResponse
      modifies `reqs, `state, `timer, `current, `completions, `completed
      ensures View() == EndLine(classes, old(View()), line)
    {
      hide Sendable;
      var i := current.value;
      reqs := reqs[i := reqs[i].(lines := reqs[i].lines + [line])];
      var err := FinalCode(line);
      if err != RESP_UNKNOWN {
        SetState(Idle, NoTimeout);
        CompleteRequest(i, err);
        current := None;
      }
    }

    method MatchResponseLine() returns (n: nat)
      requires Valid() && state == ReadingResponse
      modifies this
      ensures (View(), n) == MatchResponse(classes, old(View()))
    {
      hide Sendable, EndLine;
      var r := ScanForResponse();
      match r
      case Partial => n := 0;
      case Prompt =>
        if reqs[current.value].pdu.None? {
          tx := tx + [Escape];
        } else {
          tx := tx + [Pdu(current.value)];
          SetState(AwaitingSmsEcho, After(SMS_ECHO_TIMEOUT));
        }
        n := 4;
      case Line(line, end) =>
        TakeLine(line);
        n := end + 2;
    }

    method LookupClass(line: string) returns (c: Option<nat>)
      ensures c == ClassOf(classes, line, 0)
    {
      var k := 0;
      while k < |classes|
        invariant k <= |classes|
        invariant ClassOf(classes, line, 0) == ClassOf(classes, line, k)
      {
        if classes[k].code <= line { return Some(k); }
        k := k + 1;
      }
      return None;
    }

    method QueueUrc(u: nat)
      modifies `urcQueue, `delivered
      ensures urcQueue == old(urcQueue) + [u] && delivered == old(delivered) + [u]
    {
      urcQueue, delivered := urcQueue + [u], delivered + [u];
    }

    /** A fresh code with its allocator's reference. */
    method AllocUrc(c: nat, line: string) returns (u: nat)
      modifies `urcs
      ensures u == old(|urcs|) && urcs == old(urcs) + [Urc(c, [line], 1)]
    {
      u := |urcs|;
      urcs := urcs + [Urc(c, [line], 1)];
    }

    method UrcAddRef(u: nat, d: int)
      requires u < |urcs|
      modifies `urcs
      ensures urcs == old(urcs)[u := old(urcs)[u].(refcnt := old(urcs)[u].refcnt + d)]
    {
      urcs := urcs[u := urcs[u].(refcnt := urcs[u].refcnt + d)];
    }

    /** The code u has more lines to come. */
    method HoldUrc(u: nat)
      modifies `currentUrc, `state, `timer
      ensures View() == old(View()).(currentUrc := Some(u), timer := Some(URC_TIMEOUT),
                                     state := if old(state) == AwaitingEcho then AwaitingEchoReadingUrc else ReadingUrc)
    {
      currentUrc := Some(u);
      if state == AwaitingEcho {
        SetState(AwaitingEchoReadingUrc, After(ECHO_TIMEOUT));
      } else {
        SetState(ReadingUrc, After(READING_URC_TIMEOUT));
      }
      timer := Some(URC_TIMEOUT);
    }

    method PlaceNewUrc(c: nat, u: nat)
      requires c < |classes|
      modifies `urcQueue, `delivered, `currentUrc, `state, `timer
      ensures View() == PlaceUrc(classes, old(View()), c, u)
    {
      if state == AwaitingEcho { SetState(AwaitingEcho, After(ECHO_TIMEOUT)); }
      if classes[c].multiline {
        HoldUrc(u);
      } else {
        QueueUrc(u);
      }
    }

    method BeginUrc(c: nat, line: string)
      requires Owned(classes, View()) && (state == Idle || state == AwaitingEcho) && c < |classes|
      modifies `urcs, `urcQueue, `delivered, `currentUrc, `state, `timer
      ensures View() == StartUrc(classes, old(View()), c, line)
    {
      var u := AllocUrc(c, line);
      UrcAddRef(u, 1);
      UrcAddRef(u, -1);
      assert urcs == old(urcs) + [Urc(c, [line], 1)];
      PlaceNewUrc(c, u);
    }

    method ScanForUrc() returns (r: UrcScan)
      requires Terminated()
      ensures r == ScanUrc(text)
    {
      var begin := 0;
      if buf[0] == '\0' { return Wait; }
      if buf[0] == '\r' {
        if buf[1] == '\0' { return Wait; }
        if buf[1] != '\n' { return Junk; }
        if buf[2] == '\0' { return Wait; }
        begin := 2;
        if buf[2] == '\r' {
          if buf[3] == '\0' { return Wait; }
          if buf[3] != '\n' { return Junk; }
          begin := 4;
        }
      } else if buf[0] != '+' && buf[0] != '^' {
        return Junk;
      }
      assert UrcBegin(text) == Some(begin);
      var end := FindLineEnd(begin);
      if end.None? { return Wait; }
      var line := CopyLine(begin, end.value);
      return UrcLine(line, end.value);
    }

    method MatchUrcLine() returns (n: nat)
      requires Valid() && (state == Idle || state == AwaitingEcho)
      modifies this
      ensures (View(), n) == MatchUrc(classes, old(View()))
    {
      var r := ScanForUrc();
      match r
      case Wait => n := 0;
      case Junk => n := 1;
      case UrcLine(line, end) =>
        n := end + 2;
        TakeUrc(line);
    }

    /** A whole unsolicited line: a code of the first class that knows it, or nothing. */
    method TakeUrc(line: string)
      requires Owned(classes, View()) && (state == Idle || state == AwaitingEcho)
      modifies `urcs, `urcQueue, `delivered, `currentUrc, `state, `timer
      ensures View() == match ClassOf(classes, line, 0)
                        case None => old(View())
                        case Some(c) => StartUrc(classes, old(View()), c, line)
    {
      assert currentUrc.None?;
      var c := LookupClass(line);
      if c.Some? { BeginUrc(c.value, line); }
    }

    method AddUrcLine(u: nat, line: string)
      requires u < |urcs|
      modifies `urcs
      ensures urcs == old(urcs)[u := old(urcs)[u].(lines := old(urcs)[u].lines + [line])]
    {
      urcs := urcs[u := urcs[u].(lines := urcs[u].lines + [line])];
    }

    method FinishUrc(u: nat)
      modifies `timer, `state, `currentUrc, `urcQueue, `delivered
      ensures View() == EndUrc(old(View()), u)
    {
      QueueUrc(u);
      currentUrc := None;
      if state == AwaitingEchoReadingUrc {
        SetState(AwaitingEcho, After(ECHO_TIMEOUT));
      } else {
        SetState(Idle, NoTimeout);
      }
    }

    method TakeUrcLine(line: string)
      requires Owned(classes, View()) && InUrc(state)
      modifies `urcs, `timer, `state, `currentUrc, `urcQueue, `delivered
      ensures View() == MoreUrc(classes, old(View()), line)
    {
      assert currentUrc.Some?;
      var u := currentUrc.value;
      AddUrcLine(u, line);
      if state == AwaitingEchoReadingUrc { timer := Some(ECHO_TIMEOUT); }
      assert classes[urcs[u].cls].multiline;
      if classes[urcs[u].cls].ends(urcs[u].lines) { FinishUrc(u); }
    }

    method MatchUrcMore() returns (n: nat)
      requires Valid() && InUrc(state)
      modifies this
      ensures (View(), n) == MatchUrcCont(classes, old(View()))
    {
      var end := FindLineEnd(0);
      if end.None? { return 0; }
      var line := CopyLine(0, end.value);
      TakeUrcLine(line);
      return end.value + 2;
    }

    method MatchCommandEcho() returns (n: nat)
      requires Valid() && state == AwaitingEcho
      modifies this
      ensures (View(), n) == Match(classes, old(View()))
    {
      var m := CompareEcho(reqs[current.value].text);
      if m > 0 {
        SetState(ReadingResponse, After(reqs[current.value].timeout));
        n := m;
      } else if m != 0 {
        n := MatchUrcLine();
      } else {
        n := 0;
      }
    }

    method MatchPduEcho() returns (n: nat)
      requires Valid() && state == AwaitingSmsEcho
      modifies `tx, `state, `timer
      ensures (View(), n) == Match(classes, old(View()))
    {
      var m := CompareEcho(reqs[current.value].pdu.value);
      n := 0;
      if m > 0 {
        tx := tx + [CtrlZ];
        SetState(AwaitingSmsEcho1A, Keep);
        n := m;
      }
    }

    method MatchOnce() returns (n: nat)
      requires Valid()
      modifies this
      ensures Valid() && (View(), n) == Match(classes, old(View()))
    {
      hide MatchUrc, MatchUrcCont, MatchResponse;
      match state
      case Closed | Closing | Failed | Recovering => n := 0;
      case Idle => n := MatchUrcLine();
      case AwaitingEcho => n := MatchCommandEcho();
      case ReadingUrc => n := MatchUrcMore();
      case AwaitingEchoReadingUrc => n := MatchUrcMore();
      case AwaitingSmsEcho => n := MatchPduEcho();
      case AwaitingSmsEcho1A =>
        var m := CompareEcho(CTRL_Z);
        n := 0;
        if m > 0 {
          SetState(ReadingResponse, After(reqs[current.value].timeout));
          n := m;
        }
      case ReadingResponse => n := MatchResponseLine();
    }

    /** One turn of the receive loop, on the way to the session `target`. */
    method MatchTurn(ghost target: Session) returns (n: nat)
      requires Valid() && Drain(classes, View()) == target
      modifies this
      ensures Valid() && Owned(classes, Pulled(View(), n)) && text == old(text)
      ensures n == 0 ==> View() == target
      ensures n != 0 ==> text != "" && Drain(classes, Pulled(View(), n)) == target
    {
      n := MatchOnce();
      if n != 0 { DrainTurn(classes, old(View())); }
    }

    // -------------------------------------------------------------- the steps of the threads

    method ReceiveBytes(bytes: string)
      requires Valid() && |text| + |bytes| < BUFFER_SIZE
      modifies this, buf
      ensures Valid() && View() == Receive(classes, old(View()), bytes)
    {
      Append(bytes);
      if state == Failed || state == Recovering {
        DropFront(|bytes|);
      } else {
        MatchAll();
      }
    }

    /** The receive loop proper. */
    method MatchAll()
      requires Valid()
      modifies this, buf
      ensures Valid() && View() == Drain(classes, old(View()))
    {
      ghost var target := Drain(classes, View());
      var n := MatchTurn(target);
      while n != 0
        invariant Valid() && Owned(classes, Pulled(View(), n))
        invariant n == 0 ==> View() == target
        invariant n != 0 ==> text != "" && Drain(classes, Pulled(View(), n)) == target
        decreases |text|
      {
        n := DropAndMatch(n, target);
      }
    }

    /** The next turn, once what the last one asked for is dropped. */
    method DropAndMatch(n: nat, ghost target: Session) returns (m: nat)
      requires Valid() && n != 0 && text != ""
      requires Owned(classes, Pulled(View(), n)) && Drain(classes, Pulled(View(), n)) == target
      modifies this, buf
      ensures Valid() && Owned(classes, Pulled(View(), m)) && |text| < old(|text|)
      ensures m == 0 ==> View() == target
      ensures m != 0 ==> text != "" && Drain(classes, Pulled(View(), m)) == target
    {
      DropFront(n);
      m := MatchTurn(target);
    }

    method MakeRequest(command: string, pdu: seq<octet>, timeout: nat) returns (id: Option<nat>)
      requires Valid() && '\0' !in command
      modifies this
      ensures Valid() && (View(), id) == Submit(classes, old(View()), command, pdu, timeout)
    {
      if |command| >= REQUEST_SIZE - 2 { return None; }
      var hex: Option<string> := None;
      if pdu != [] {
        var t := PrintHex(pdu);
        hex := Some(t);
      }
      var i := Enqueue(Request(command + "\r", hex, timeout + 100 * MILLISEC, MAX_WRITES, false, 0, [], 1));
      return Some(i);
    }

    /** Stores a request that its submitter holds, with one more reference for the queue. */
    method Enqueue(r: Request) returns (i: nat)
      requires r.refcnt == 1
      modifies `reqs, `queue, `held
      ensures i == old(|reqs|) && reqs == old(reqs) + [r.(refcnt := 1 + 1)]
      ensures queue == old(queue) + [i] && held == old(held) + {i}
    {
      i := |reqs|;
      reqs := reqs + [r];
      held := held + {i};
      ReqGet(i);
      queue := queue + [i];
    }

    method Dequeue() returns (r: Option<nat>)
      modifies `queue
      ensures old(queue) == [] ==> r.None? && queue == []
      ensures old(queue) != [] ==> r == Some(old(queue)[0]) && queue == old(queue)[1..]
    {
      if queue == [] { return None; }
      r := Some(queue[0]);
      queue := queue[1..];
    }

    method ProcessNextRequest()
      requires Valid() && state == Idle
      modifies this
      ensures View() == ProcessNext(classes, old(View()))
    {
      assert current.None?;
      SendNext();
    }

    method SendNext()
      requires current.None?
      modifies `queue, `current, `tx, `state, `timer
      ensures old(queue) == [] ==> View() == old(View())
      ensures old(queue) != [] ==>
        var s := old(View()).(current := Some(old(queue)[0]), queue := old(queue)[1..]);
        View() == ChangeState(Write(s, Command(old(queue)[0])), AwaitingEcho, After(ECHO_TIMEOUT))
    {
      current := Dequeue();
      if current.None? { return; }
      tx := tx + [Command(current.value)];
      SetState(AwaitingEcho, After(ECHO_TIMEOUT));
    }

    method FlushRequests()
      requires Valid()
      modifies `queue, `reqs, `completions, `completed
      ensures View() == Flush(classes, old(View()))
    {
      while queue != []
        invariant Valid()
        invariant Flush(classes, View()) == Flush(classes, old(View()))
        decreases |queue|
      {
        FlushOne();
      }
    }

    method FlushOne()
      requires Valid() && queue != []
      modifies `queue, `reqs, `completions, `completed
      ensures Valid() && |queue| < old(|queue|)
      ensures Flush(classes, View()) == Flush(classes, old(View()))
    {
      var i := Dequeue();
      CompleteRequest(i.value, RESP_FAILED);
      assert View() == Complete(old(View()).(queue := old(queue)[1..]), old(queue)[0], RESP_FAILED);
    }

    method ServeRequests()
      requires Valid()
      modifies this
      ensures Valid() && View() == Serve(classes, old(View()))
    {
      if state == Idle {
        ProcessNextRequest();
      } else if state == Failed || state == Closing || state == Closed {
        FlushRequests();
      }
    }

    method LoseSynchronization()
      requires Terminated() && (currentUrc.Some? ==> currentUrc.value < |urcs|)
      modifies `urcs, `currentUrc, `state, `timer, `text, `tx, buf
      ensures Terminated() && View() == LoseSync(old(View()))
    {
      if currentUrc.Some? {
        UrcAddRef(currentUrc.value, -1);
        currentUrc := None;
      }
      SetState(Recovering, After(RECOVERY_TIMEOUT));
      buf[0] := '\0';
      text := "";
      tx := tx + [Recovery];
    }

    method FireTimer()
      requires Valid() && timer.Some?
      modifies this, buf
      ensures Valid() && View() == TimerFired(classes, old(View()))
    {
      ghost var was := View();
      Disarm();
      DisarmedIs(was, View());
      if state != Recovering { LoseSynchronization(); } else { Retry(); }
    }

    lemma DisarmedIs(was: Session, now: Session)
      requires Owned(classes, was) && was.timer.Some?
      requires now == was.(timer := None, expiries := was.expiries + [was.current])
      ensures (now.current.Some? ==> now.current.value < |now.reqs|)
      ensures (now.currentUrc.Some? ==> now.currentUrc.value < |now.urcs|)
      ensures TimerFired(classes, was) == (if now.state != Recovering then LoseSync(now)
                                           else if now.current.None? then ChangeState(now, Idle, NoTimeout)
                                           else RetryOf(now))
      ensures Owned(classes, TimerFired(classes, was))
    {
    }

    method Retry()
      requires Terminated() && (current.Some? ==> current.value < |reqs|)
      modifies `reqs, `state, `timer, `completions, `completed, `current, `tx
      ensures Terminated()
      ensures View() == if old(current).None? then ChangeState(old(View()), Idle, NoTimeout) else RetryOf(old(View()))
    {
      if current.Some? {
        RetryOrGiveUp();
      } else {
        SetState(Idle, NoTimeout);
      }
    }

    /** The timer set takes the session timer off its list before it calls back. */
    method Disarm()
      modifies `timer, `expiries
      ensures View() == old(View()).(timer := None, expiries := old(expiries) + [old(current)])
    {
      timer := None;
      expiries := expiries + [current];
    }

    /** The command in hand has one try less; with none left it fails and so does the session. */
    method RetryOrGiveUp()
      requires current.Some? && current.value < |reqs|
      modifies `reqs, `state, `timer, `completions, `completed, `current, `tx
      ensures View() == RetryOf(old(View()))
    {
      hide Sendable;
      var i := current.value;
      reqs := reqs[i := reqs[i].(retransmit := reqs[i].retransmit - 1)];
      if reqs[i].retransmit == 0 {
        SetState(Failed, NoTimeout);
        CompleteRequest(i, RESP_FAILED);
        current := None;
      } else {
        tx := tx + [Command(i)];
        SetState(AwaitingEcho, After(ECHO_TIMEOUT));
      }
    }

    method AskClose()
      requires Valid()
      modifies `state, `timer
      ensures Valid() && View() == CloseAsk(classes, old(View()))
    {
      SetState(Closing, NoTimeout);
    }

    method ExitThread()
      requires Valid() && state == Closing
      modifies `state, `timer
      ensures Valid() && View() == ThreadExit(classes, old(View()))
    {
      SetState(Closed, NoTimeout);
    }

    method RunCompletion()
      requires Valid() && completions != []
      modifies `completions, `called, `reqs
      ensures Valid() && View() == PopCompletion(classes, old(View()))
    {
      var i := completions[0];
      completions := completions[1..];
      called := called + [i];
      ReqPut(i);
    }

    method HandleUrc()
      requires Valid() && urcQueue != []
      modifies `urcQueue, `handled, `urcs
      ensures Valid() && View() == PopUrc(classes, old(View()))
    {
      hide Sendable;
      var u := urcQueue[0];
      urcQueue := urcQueue[1..];
      handled := handled + [u];
      UrcAddRef(u, -1);
    }

    method PutRequest(i: nat)
      requires Valid() && i in held
      modifies `held, `reqs
      ensures Valid() && View() == PutByCaller(classes, old(View()), i)
    {
      held := held - {i};
      ReqPut(i);
    }

    /** Any step of any thread; each keeps the ledger of requests and unsolicited codes. */
    method Step(e: Event)
      requires Valid() && Enabled(View(), e)
      modifies this, buf
      ensures Valid() && View() == Next(classes, old(View()), e)
      ensures old(Ledger(View())) ==> Ledger(View())
    {
      match e {
        case Submitted(command, pdu, timeout) => var _ := MakeRequest(command, pdu, timeout);
        case Served => ServeRequests();
        case Expired => FireTimer();
        case Arrived(bytes) => ReceiveBytes(bytes);
        case CloseAsked => AskClose();
        case ThreadExited => ExitThread();
        case CompletionRun => RunCompletion();
        case UrcHandled => HandleUrc();
        case CallerPut(i) => PutRequest(i);
      }
      if old(Ledger(View())) { NextKeeps(classes, old(View()), e); }
    }
  }
}
