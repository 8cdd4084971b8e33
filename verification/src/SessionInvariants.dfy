/**
 What every interleaving of the session keeps: no request is lost, duplicated or reordered, references are
 counted exactly, a command is written at most three times, unsolicited codes are delivered once.
 */
module SessionInvariants {
  import opened Bits
  import opened Text
  import opened Session

  function Iota(n: nat): (r: seq<nat>)
    ensures |r| == n && forall k :: 0 <= k < n ==> r[k] == k
  {
    seq(n, k => k)
  }

  function InHand(s: Session): seq<nat>
  {
    if s.current.Some? then [s.current.value] else []
  }

  function One(b: bool): nat { if b then 1 else 0 }

  /** Submission order, with what is completed, in hand and queued, in that order. */
  ghost predicate Conserved(s: Session)
  {
    && s.completed + InHand(s) + s.queue == Iota(|s.reqs|)
    && s.called + s.completions == s.completed
  }

  ghost predicate ReadyExact(s: Session)
  {
    forall i :: 0 <= i < |s.reqs| ==> (s.reqs[i].ready <==> i in s.completed)
  }

  /** Everything that holds a reference to request i. */
  function Owners(s: Session, i: nat): nat
  {
    One(i in s.held) + One(i in s.queue) + One(s.current == Some(i)) + One(i in s.completions)
  }

  function UrcOwners(s: Session, u: nat): nat
  {
    One(u in s.urcQueue) + One(s.currentUrc == Some(u))
  }

  /** A request has its submitter's reference and, until its callback has run, one of the engine's. */
  ghost predicate Counted(s: Session)
  {
    forall i :: 0 <= i < |s.reqs| ==> s.reqs[i].refcnt == One(i in s.held) + One(i >= |s.called|)
  }

  ghost predicate UrcsCounted(s: Session)
  {
    forall u :: 0 <= u < |s.urcs| ==> s.urcs[u].refcnt == UrcOwners(s, u)
  }

  ghost function Writes(s: Session, i: nat): nat { multiset(s.tx)[Command(i)] }

  ghost function Expiries(s: Session, i: nat): nat { multiset(s.expiries)[Some(i)] }

  ghost predicate RetriesOf(s: Session, i: nat)
  {
    if i < |s.completed| then
      Writes(s, i) <= MAX_WRITES && Expiries(s, i) <= 2 * MAX_WRITES
    else if s.current == Some(i) && i < |s.reqs| then
      var left := s.reqs[i].retransmit;
      && 1 <= left <= MAX_WRITES
      && Writes(s, i) + left == MAX_WRITES + 1
      && (if IsLive(s.state)
          then Expiries(s, i) == 2 * (MAX_WRITES - left) + One(s.state == Recovering)
          else Expiries(s, i) <= 2 * (MAX_WRITES - left) + 1)
    else
      && Writes(s, i) == 0 && Expiries(s, i) == 0
      && (i < |s.reqs| ==> s.reqs[i].retransmit == MAX_WRITES)
  }

  ghost predicate Bounded(s: Session)
  {
    forall i: nat :: RetriesOf(s, i)
  }

  ghost predicate UrcsInOrder(s: Session)
  {
    && s.handled + s.urcQueue == s.delivered
    && (forall j, k :: 0 <= j < k < |s.delivered| ==> s.delivered[j] < s.delivered[k])
    && (s.currentUrc.Some? ==> s.currentUrc.value + 1 == |s.urcs|)
    && (forall k :: 0 <= k < |s.delivered| ==> s.delivered[k] < |s.urcs| - |UrcInHand(s)|)
  }

  function UrcInHand(s: Session): seq<nat>
  {
    if s.currentUrc.Some? then [s.currentUrc.value] else []
  }

  ghost predicate RequestLedger(s: Session)
  {
    Conserved(s) && ReadyExact(s) && Counted(s) && Bounded(s)
  }

  ghost predicate UrcLedger(s: Session)
  {
    UrcsInOrder(s) && UrcsCounted(s)
  }

  ghost predicate Ledger(s: Session)
  {
    RequestLedger(s) && UrcLedger(s)
  }

  // ---------------------------------------------------------------- positions are submission numbers

  /** The queues are consecutive runs of submission numbers. */
  lemma Positions(s: Session)
    requires Conserved(s)
    ensures |s.called| <= |s.completed| <= |s.reqs|
    ensures s.current.Some? ==> s.current.value == |s.completed| < |s.reqs|
    ensures forall k :: 0 <= k < |s.completed| ==> s.completed[k] == k
    ensures forall k :: 0 <= k < |s.called| ==> s.called[k] == k
    ensures forall k :: 0 <= k < |s.completions| ==> s.completions[k] == |s.called| + k < |s.completed|
    ensures forall k :: 0 <= k < |s.queue| ==> s.queue[k] == |s.completed| + |InHand(s)| + k < |s.reqs|
    ensures |s.completed| + |InHand(s)| + |s.queue| == |s.reqs|
    ensures |s.called| + |s.completions| == |s.completed|
  {
    var all := s.completed + InHand(s) + s.queue;
    assert |all| == |s.reqs|;
    assert forall k :: 0 <= k < |s.completed| ==> all[k] == s.completed[k];
    assert s.current.Some? ==> all[|s.completed|] == s.current.value;
    assert forall k :: 0 <= k < |s.queue| ==> all[|s.completed| + |InHand(s)| + k] == s.queue[k];
    assert forall k :: 0 <= k < |s.called| ==> s.completed[k] == s.called[k];
    assert forall k :: 0 <= k < |s.completions| ==> s.completed[|s.called| + k] == s.completions[k];
  }

  lemma Members(s: Session, i: nat)
    requires Conserved(s) && i < |s.reqs|
    ensures i in s.completed <==> i < |s.completed|
    ensures i in s.called <==> i < |s.called|
    ensures i in s.completions <==> |s.called| <= i < |s.completed|
    ensures s.current == Some(i) <==> s.current.Some? && i == |s.completed|
    ensures i in s.queue <==> |s.completed| + |InHand(s)| <= i
  {
    Positions(s);
    if i < |s.completed| { assert s.completed[i] == i; }
    if i < |s.called| { assert s.called[i] == i; }
    if |s.called| <= i < |s.completed| { assert s.completions[i - |s.called|] == i; }
    var q := |s.completed| + |InHand(s)|;
    if q <= i { assert s.queue[i - q] == i; }
  }

  /** A request's reference count is the number of its owners, of which the engine is at most one. */
  lemma RefcountIsOwners(s: Session, i: nat)
    requires Conserved(s) && Counted(s) && i < |s.reqs|
    ensures s.reqs[i].refcnt == Owners(s, i)
    ensures One(i in s.queue) + One(s.current == Some(i)) + One(i in s.completions) == One(i !in s.called)
  {
    Members(s, i);
    Positions(s);
  }

  // ---------------------------------------------------------------- one step

  /** A step that leaves the requests and their queues alone leaves their ledger alone. */
  lemma UrcStepKeeps(s: Session, t: Session)
    requires RequestLedger(s)
    requires s.reqs == t.reqs && s.queue == t.queue && s.current == t.current && s.held == t.held
    requires s.completions == t.completions && s.completed == t.completed && s.called == t.called
    requires s.tx == t.tx && s.expiries == t.expiries
    requires LiveWithInput(s.state) && LiveWithInput(t.state)
    ensures RequestLedger(t)
  {
    forall i: nat ensures RetriesOf(t, i) { assert RetriesOf(s, i); }
  }

  lemma RequestStepKeeps(s: Session, t: Session)
    requires UrcLedger(s)
    requires s.urcs == t.urcs && s.currentUrc == t.currentUrc && s.urcQueue == t.urcQueue
    requires s.delivered == t.delivered && s.handled == t.handled
    ensures UrcLedger(t)
  {
    assert forall u :: UrcOwners(s, u) == UrcOwners(t, u);
  }

  lemma StartUrcKeeps(cs: seq<UrcClass>, s: Session, c: nat, text: string)
    requires Owned(cs, s) && Ledger(s) && (s.state == Idle || s.state == AwaitingEcho) && c < |cs|
    ensures Ledger(StartUrc(cs, s, c, text))
  {
    hide RequestLedger;
    UrcStepKeeps(s, StartUrc(cs, s, c, text));
  }

  /** Appending a line to the code in hand, and queueing it when it is whole. */
  lemma UrcLineKeeps(s: Session, t: Session, whole: bool)
    requires UrcLedger(s) && s.currentUrc.Some? && s.currentUrc.value < |s.urcs| == |t.urcs|
    requires forall u :: 0 <= u < |s.urcs| ==> t.urcs[u].refcnt == s.urcs[u].refcnt
    requires t.handled == s.handled
    requires !whole ==>
      t.currentUrc == s.currentUrc && t.urcQueue == s.urcQueue && t.delivered == s.delivered
    requires whole ==>
      var u := s.currentUrc.value;
      t.currentUrc.None? && t.urcQueue == s.urcQueue + [u] && t.delivered == s.delivered + [u]
    ensures UrcLedger(t)
  {
    var u := s.currentUrc.value;
    if whole {
      assert t.handled + t.urcQueue == s.handled + s.urcQueue + [u];
      forall k | 0 <= k < |s.urcQueue| ensures s.urcQueue[k] < u {
        assert s.delivered[|s.handled| + k] == s.urcQueue[k];
      }
    }
    forall v | 0 <= v < |t.urcs| ensures t.urcs[v].refcnt == UrcOwners(t, v) {
      assert s.urcs[v].refcnt == UrcOwners(s, v);
    }
  }

  lemma MatchUrcContKeeps(cs: seq<UrcClass>, s: Session)
    requires Owned(cs, s) && Ledger(s) && InUrc(s.state)
    ensures Ledger(MatchUrcCont(cs, s).0)
  {
    hide RequestLedger, UrcLedger;
    var (t, n) := MatchUrcCont(cs, s);
    if n > 0 {
      UrcStepKeeps(s, t);
      UrcLineKeeps(s, t, t.currentUrc.None?);
    }
  }

  lemma CompleteKeeps(s: Session, t: Session, i: nat, err: int)
    requires Conserved(s) && ReadyExact(s) && Counted(s) && i < |s.reqs|
    requires s.current == Some(i) || (s.current.None? && s.queue != [] && s.queue[0] == i)
    requires t == (if s.current.Some? then Complete(s, i, err).(current := None)
                   else Complete(s.(queue := s.queue[1..]), i, err))
    ensures Conserved(t) && ReadyExact(t) && Counted(t)
  {
    Positions(s);
    Members(s, i);
    assert t.completed + InHand(t) + t.queue == s.completed + InHand(s) + s.queue;
    assert t.called + t.completions == t.completed;
    forall j | 0 <= j < |t.reqs| ensures t.reqs[j].ready <==> j in t.completed {
      assert t.completed == s.completed + [i];
    }
  }

  lemma LineKeeps(s: Session, i: nat, text: string)
    requires Ledger(s) && i < |s.reqs|
    ensures Ledger(s.(reqs := s.reqs[i := s.reqs[i].(lines := s.reqs[i].lines + [text])]))
  {
    hide UrcLedger;
    var t := s.(reqs := s.reqs[i := s.reqs[i].(lines := s.reqs[i].lines + [text])]);
    RequestStepKeeps(s, t);
    forall j: nat ensures RetriesOf(t, j) { assert RetriesOf(s, j); }
  }

  /** The request in hand completes with a final result code. */
  lemma FinishKeeps(s: Session, i: nat, err: int)
    requires Ledger(s) && i < |s.reqs| && s.current == Some(i) && IsLive(s.state) && s.state != Recovering
    ensures Ledger(Complete(ChangeState(s, Idle, NoTimeout), i, err).(current := None))
  {
    hide UrcLedger;
    var t := Complete(ChangeState(s, Idle, NoTimeout), i, err).(current := None);
    RequestStepKeeps(s, t);
    Positions(s);
    CompleteKeeps(ChangeState(s, Idle, NoTimeout), t, i, err);
    forall j: nat ensures RetriesOf(t, j) { assert RetriesOf(s, j); }
  }

  lemma EndLineKeeps(cs: seq<UrcClass>, s: Session, text: string)
    requires Owned(cs, s) && Ledger(s) && s.state == ReadingResponse
    ensures Ledger(EndLine(cs, s, text))
  {
    hide Ledger;
    var i := s.current.value;
    LineKeeps(s, i, text);
    var s1 := s.(reqs := s.reqs[i := s.reqs[i].(lines := s.reqs[i].lines + [text])]);
    if FinalCode(text) != RESP_UNKNOWN { FinishKeeps(s1, i, FinalCode(text)); }
  }

  /** Writing anything but a command does not count as a retry. */
  lemma OtherWriteKeeps(s: Session, x: Tx)
    requires Ledger(s) && !x.Command?
    ensures Ledger(Write(s, x))
  {
    hide UrcLedger;
    var t := Write(s, x);
    RequestStepKeeps(s, t);
    assert multiset(t.tx) == multiset(s.tx) + multiset{x};
    forall j: nat ensures RetriesOf(t, j) { assert RetriesOf(s, j); }
  }

  /** A change of state or timer that does not enter or leave RECOVERING. */
  lemma ChangeKeeps(s: Session, st: State, d: Timeout)
    requires Ledger(s) && (s.state == Recovering) == (st == Recovering) && IsLive(s.state) && IsLive(st)
    ensures Ledger(ChangeState(s, st, d))
  {
    hide UrcLedger;
    var t := ChangeState(s, st, d);
    RequestStepKeeps(s, t);
    forall j: nat ensures RetriesOf(t, j) { assert RetriesOf(s, j); }
  }

  lemma MatchKeeps(cs: seq<UrcClass>, s: Session)
    requires Owned(cs, s) && Ledger(s)
    ensures Ledger(Match(cs, s).0)
  {
    hide Ledger, MatchUrc, MatchUrcCont, MatchResponse;
    var (t, n) := Match(cs, s);
    if n == 0 { return; }
    match s.state
    case Idle => MatchUrcKeeps(cs, s);
    case AwaitingEcho =>
      var r := s.reqs[s.current.value];
      if MatchEcho(s.buf, r.text) > 0 { ChangeKeeps(s, ReadingResponse, After(r.timeout)); }
      else { MatchUrcKeeps(cs, s); }
    case ReadingUrc => MatchUrcContKeeps(cs, s);
    case AwaitingEchoReadingUrc => MatchUrcContKeeps(cs, s);
    case AwaitingSmsEcho =>
      OtherWriteKeeps(s, CtrlZ);
      ChangeKeeps(Write(s, CtrlZ), AwaitingSmsEcho1A, Keep);
    case AwaitingSmsEcho1A =>
      ChangeKeeps(s, ReadingResponse, After(s.reqs[s.current.value].timeout));
    case ReadingResponse => MatchResponseKeeps(cs, s);
  }

  lemma MatchUrcKeeps(cs: seq<UrcClass>, s: Session)
    requires Owned(cs, s) && Ledger(s) && (s.state == Idle || s.state == AwaitingEcho)
    ensures Ledger(MatchUrc(cs, s).0)
  {
    hide Ledger, StartUrc;
    match ScanUrc(s.buf)
    case UrcLine(text, _) =>
      match ClassOf(cs, text, 0) {
        case Some(c) => StartUrcKeeps(cs, s, c, text);
        case None =>
      }
    case _ =>
  }

  lemma MatchResponseKeeps(cs: seq<UrcClass>, s: Session)
    requires Owned(cs, s) && Ledger(s) && s.state == ReadingResponse
    ensures Ledger(MatchResponse(cs, s).0)
  {
    hide Ledger, EndLine, ScanResponse;
    var i := s.current.value;
    match ScanResponse(s.buf)
    case Partial =>
    case Prompt =>
      OtherWriteKeeps(s, Escape);
      OtherWriteKeeps(s, Pdu(i));
      ChangeKeeps(Write(s, Pdu(i)), AwaitingSmsEcho, After(SMS_ECHO_TIMEOUT));
    case Line(text, _) => EndLineKeeps(cs, s, text);
  }

  lemma PulledKeeps(s: Session, b: string)
    requires Ledger(s)
    ensures Ledger(s.(buf := b))
  {
    hide UrcLedger;
    var t := s.(buf := b);
    RequestStepKeeps(s, t);
    forall j: nat ensures RetriesOf(t, j) { assert RetriesOf(s, j); }
  }

  lemma {:induction false} DrainKeeps(cs: seq<UrcClass>, s: Session)
    requires Owned(cs, s) && Ledger(s)
    ensures Ledger(Drain(cs, s))
    decreases |s.buf|
  {
    hide Ledger, Match;
    var (s1, n) := Match(cs, s);
    if n != 0 {
      MatchKeeps(cs, s);
      PulledKeeps(s1, Pull(s1.buf, n));
      DrainKeeps(cs, Pulled(s1, n));
    }
  }

  lemma QueuedKeeps(s: Session, r: Request)
    requires Ledger(s) && !r.ready && r.refcnt == 2 && r.retransmit == MAX_WRITES
    ensures var i := |s.reqs|;
      Ledger(s.(reqs := s.reqs + [r], queue := s.queue + [i], held := s.held + {i}))
  {
    hide UrcLedger;
    var i := |s.reqs|;
    var t := s.(reqs := s.reqs + [r], queue := s.queue + [i], held := s.held + {i});
    RequestStepKeeps(s, t);
    Positions(s);
    assert t.completed + InHand(t) + t.queue == s.completed + InHand(s) + s.queue + [i];
    forall j: nat ensures RetriesOf(t, j) { assert RetriesOf(s, j); }
  }

  lemma SubmitKeeps(cs: seq<UrcClass>, s: Session, text: string, pdu: seq<octet>, timeout: nat)
    requires Owned(cs, s) && Ledger(s) && '\0' !in text
    ensures Ledger(Submit(cs, s, text, pdu, timeout).0)
  {
    var (t, r) := Submit(cs, s, text, pdu, timeout);
    if r.Some? { QueuedKeeps(s, t.reqs[|s.reqs|]); }
  }

  lemma ProcessNextKeeps(cs: seq<UrcClass>, s: Session)
    requires Owned(cs, s) && Ledger(s) && s.state == Idle
    ensures Ledger(ProcessNext(cs, s))
  {
    hide UrcLedger;
    var t := ProcessNext(cs, s);
    if s.queue != [] {
      RequestStepKeeps(s, t);
      Positions(s);
      assert t.completed + InHand(t) + t.queue == s.completed + InHand(s) + s.queue;
      assert multiset(t.tx) == multiset(s.tx) + multiset{Command(s.queue[0])};
      forall j: nat ensures RetriesOf(t, j) { assert RetriesOf(s, j); }
    }
  }

  lemma FlushOneKeeps(s: Session)
    requires Ledger(s) && s.current.None? && s.queue != [] && s.queue[0] < |s.reqs|
    ensures Ledger(Complete(s.(queue := s.queue[1..]), s.queue[0], RESP_FAILED))
  {
    hide UrcLedger;
    var i := s.queue[0];
    var t := Complete(s.(queue := s.queue[1..]), i, RESP_FAILED);
    RequestStepKeeps(s, t);
    CompleteKeeps(s, t, i, RESP_FAILED);
    Positions(s);
    forall j: nat ensures RetriesOf(t, j) { assert RetriesOf(s, j); }
  }

  lemma {:induction false} FlushKeeps(cs: seq<UrcClass>, s: Session)
    requires Owned(cs, s) && Ledger(s) && s.current.None?
    ensures Ledger(Flush(cs, s))
    ensures Flush(cs, s).queue == []
    decreases |s.queue|
  {
    hide Ledger;
    if s.queue != [] {
      FlushOneKeeps(s);
      FlushKeeps(cs, Complete(s.(queue := s.queue[1..]), s.queue[0], RESP_FAILED));
    }
  }

  lemma TimerFiredKeeps(cs: seq<UrcClass>, s: Session)
    requires Owned(cs, s) && Ledger(s) && s.timer.Some?
    ensures Ledger(TimerFired(cs, s))
  {
    hide UrcLedger, ReadyExact, Counted;
    if s.state != Recovering { LoseSyncKeeps(s); }
    else if s.current.None? { IdleAgainKeeps(cs, s); }
    else {
      var i := s.current.value;
      Positions(s);
      assert RetriesOf(s, i);
      if s.reqs[i].retransmit == 1 { GiveUpKeeps(s, i); } else { RetransmitKeeps(s, i); }
    }
  }

  lemma LoseSyncKeeps(s: Session)
    requires Ledger(s) && IsLive(s.state) && s.state != Recovering
    requires s.currentUrc.Some? ==> s.currentUrc.value < |s.urcs|
    ensures Ledger(LoseSync(s.(timer := None, expiries := s.expiries + [s.current])))
  {
    var t := LoseSync(s.(timer := None, expiries := s.expiries + [s.current]));
    Positions(s);
    assert multiset(t.expiries) == multiset(s.expiries) + multiset{s.current};
    assert multiset(t.tx) == multiset(s.tx) + multiset{Recovery};
    assert t.completed + InHand(t) + t.queue == s.completed + InHand(s) + s.queue;
    LostUrcKeeps(s, t);
    forall j: nat ensures RetriesOf(t, j) { assert RetriesOf(s, j); }
  }

  lemma IdleAgainKeeps(cs: seq<UrcClass>, s: Session)
    requires Owned(cs, s) && Ledger(s) && s.timer.Some? && s.state == Recovering && s.current.None?
    ensures Ledger(TimerFired(cs, s))
  {
    hide Owned, UrcLedger;
    var t := TimerFired(cs, s);
    RequestStepKeeps(s, t);
    assert multiset(t.expiries) == multiset(s.expiries) + multiset{s.current};
    forall j: nat ensures RetriesOf(t, j) { assert RetriesOf(s, j); }
  }

  lemma RetransmitKeeps(s: Session, i: nat)
    requires Ledger(s) && s.state == Recovering && s.current == Some(i) && i < |s.reqs|
    requires s.reqs[i].retransmit > 1
    ensures Ledger(RetryOf(s.(timer := None, expiries := s.expiries + [s.current])))
  {
    hide UrcLedger;
    var t := RetryOf(s.(timer := None, expiries := s.expiries + [s.current]));
    RequestStepKeeps(s, t);
    Positions(s);
    assert multiset(t.expiries) == multiset(s.expiries) + multiset{s.current};
    assert multiset(t.tx) == multiset(s.tx) + multiset{Command(i)};
    assert t.completed + InHand(t) + t.queue == s.completed + InHand(s) + s.queue;
    forall j: nat ensures RetriesOf(t, j) { assert RetriesOf(s, j); }
  }

  lemma LostUrcKeeps(s: Session, t: Session)
    requires UrcLedger(s) && t.urcQueue == s.urcQueue && t.delivered == s.delivered && t.handled == s.handled
    requires t.currentUrc.None? && (s.currentUrc.None? ==> t.urcs == s.urcs)
    requires s.currentUrc.Some? ==>
      var u := s.currentUrc.value;
      u < |s.urcs| && t.urcs == s.urcs[u := s.urcs[u].(refcnt := s.urcs[u].refcnt - 1)]
    ensures UrcLedger(t)
  {
  }

  lemma GiveUpKeeps(s: Session, i: nat)
    requires Ledger(s) && s.state == Recovering && s.current == Some(i) && i < |s.reqs|
    requires s.reqs[i].retransmit == 1
    ensures Ledger(RetryOf(s.(timer := None, expiries := s.expiries + [s.current])))
  {
    hide UrcLedger;
    var s0 := s.(timer := None, expiries := s.expiries + [s.current]);
    var t := RetryOf(s0);
    RequestStepKeeps(s, t);
    Positions(s);
    assert multiset(t.expiries) == multiset(s.expiries) + multiset{s.current};
    forall j: nat ensures RetriesOf(t, j) { assert RetriesOf(s, j); }
    var s1 := s0.(reqs := s0.reqs[i := s0.reqs[i].(retransmit := s0.reqs[i].retransmit - 1)]);
    var s2 := ChangeState(s1, Failed, NoTimeout);
    assert s2.completed + InHand(s2) + s2.queue == s.completed + InHand(s) + s.queue;
    CompleteKeeps(s2, t, i, RESP_FAILED);
  }

  lemma PopCompletionKeeps(cs: seq<UrcClass>, s: Session)
    requires Owned(cs, s) && Ledger(s) && s.completions != []
    ensures Ledger(PopCompletion(cs, s))
  {
    hide Owned, UrcLedger;
    var t := PopCompletion(cs, s);
    RequestStepKeeps(s, t);
    Positions(s);
    assert t.completed + InHand(t) + t.queue == s.completed + InHand(s) + s.queue;
    assert t.called + t.completions == s.called + s.completions;
    forall j: nat ensures RetriesOf(t, j) { assert RetriesOf(s, j); }
  }

  lemma PopUrcKeeps(cs: seq<UrcClass>, s: Session)
    requires Owned(cs, s) && Ledger(s) && s.urcQueue != []
    ensures Ledger(PopUrc(cs, s))
  {
    hide UrcLedger;
    var t := PopUrc(cs, s);
    assert t.completed + InHand(t) + t.queue == s.completed + InHand(s) + s.queue;
    forall j: nat ensures RetriesOf(t, j) { assert RetriesOf(s, j); }
    HandledUrcKeeps(s, t);
  }

  lemma HandledUrcKeeps(s: Session, t: Session)
    requires UrcLedger(s) && s.urcQueue != [] && s.urcQueue[0] < |s.urcs|
    requires var u := s.urcQueue[0];
      && t.urcs == s.urcs[u := s.urcs[u].(refcnt := s.urcs[u].refcnt - 1)]
      && t.handled == s.handled + [u] && t.urcQueue == s.urcQueue[1..]
    requires t.delivered == s.delivered && t.currentUrc == s.currentUrc
    ensures UrcLedger(t)
  {
    var u, h := s.urcQueue[0], |s.handled|;
    assert t.handled + t.urcQueue == s.handled + s.urcQueue;
    assert forall k :: 0 <= k < |s.urcQueue| ==> s.urcQueue[k] == s.delivered[h + k];
    assert u !in t.urcQueue;
    assert s.urcQueue == [u] + t.urcQueue;
    assert s.delivered[h] == u;
    forall v | 0 <= v < |t.urcs| ensures t.urcs[v].refcnt == UrcOwners(t, v) {
      assert s.urcs[v].refcnt == UrcOwners(s, v);
      assert v != u ==> (v in s.urcQueue <==> v in t.urcQueue);
    }
  }

  lemma PutByCallerKeeps(cs: seq<UrcClass>, s: Session, i: nat)
    requires Owned(cs, s) && Ledger(s) && i in s.held
    ensures Ledger(PutByCaller(cs, s, i))
  {
    hide UrcLedger;
    var t := PutByCaller(cs, s, i);
    RequestStepKeeps(s, t);
    assert t.completed + InHand(t) + t.queue == s.completed + InHand(s) + s.queue;
    forall j: nat ensures RetriesOf(t, j) { assert RetriesOf(s, j); }
  }

  lemma LeaveKeeps(s: Session, st: State)
    requires Ledger(s) && !IsLive(st)
    ensures Ledger(ChangeState(s, st, NoTimeout))
  {
    hide UrcLedger;
    var t := ChangeState(s, st, NoTimeout);
    RequestStepKeeps(s, t);
    forall j: nat ensures RetriesOf(t, j) { assert RetriesOf(s, j); }
  }

  lemma NextKeeps(cs: seq<UrcClass>, s: Session, e: Event)
    requires Owned(cs, s) && Ledger(s) && Enabled(s, e)
    ensures Ledger(Next(cs, s, e))
  {
    hide Ledger;
    match e
    case Submitted(text, pdu, timeout) => SubmitKeeps(cs, s, text, pdu, timeout);
    case Served => if s.state == Idle { ProcessNextKeeps(cs, s); } else if s.state == Failed { FlushKeeps(cs, s); }
    case Expired => TimerFiredKeeps(cs, s);
    case Arrived(bytes) =>
      var b := s.buf + UpToNul(bytes);
      PulledKeeps(s, b);
      PulledKeeps(s, Pull(b, |bytes|));
      if s.state != Failed && s.state != Recovering { DrainKeeps(cs, s.(buf := b)); }
    case CloseAsked => LeaveKeeps(s, Closing);
    case ThreadExited => LeaveKeeps(s, Closed);
    case CompletionRun => PopCompletionKeeps(cs, s);
    case UrcHandled => PopUrcKeeps(cs, s);
    case CallerPut(i) => PutByCallerKeeps(cs, s, i);
  }

  // ---------------------------------------------------------------- whole runs

  lemma {:induction false} RunKeeps(cs: seq<UrcClass>, s: Session, es: seq<Event>)
    requires Owned(cs, s) && Ledger(s) && Happens(cs, s, es)
    ensures Ledger(Run(cs, s, es))
    decreases |es|
  {
    hide Ledger, Next;
    if es != [] {
      NextKeeps(cs, s, es[0]);
      RunKeeps(cs, Next(cs, s, es[0]), es[1..]);
    }
  }

  lemma OpenedLedger()
    ensures Ledger(Opened())
  {
    var s := Opened();
    assert s.completed + InHand(s) + s.queue == Iota(0);
    forall i: nat ensures RetriesOf(s, i) {}
  }

  /** First in, first out: what is completed, in hand and queued is the submission order, and callbacks run
      once each in that order. */
  lemma NothingLostOrReordered(cs: seq<UrcClass>, es: seq<Event>)
    requires Happens(cs, Opened(), es)
    ensures var s := Run(cs, Opened(), es);
      && s.completed + InHand(s) + s.queue == Iota(|s.reqs|)
      && s.called + s.completions == s.completed
      && s.called <= s.completed <= Iota(|s.reqs|)
      && (forall i :: 0 <= i < |s.reqs| ==> (s.reqs[i].ready <==> i in s.completed))
  {
    hide Run, Happens, UrcLedger, Counted, Bounded;
    OpenedLedger();
    RunKeeps(cs, Opened(), es);
  }

  /** Reference counts equal the owners, the engine's ownership is in one place at a time, and so a request is
      freed (count 0) exactly when its callback has run and its submitter has put it. */
  lemma ReferencesExact(cs: seq<UrcClass>, es: seq<Event>, i: nat)
    requires Happens(cs, Opened(), es)
    requires i < |Run(cs, Opened(), es).reqs|
    ensures var s := Run(cs, Opened(), es);
      && s.reqs[i].refcnt == Owners(s, i)
      && One(i in s.queue) + One(s.current == Some(i)) + One(i in s.completions) == One(i !in s.called)
      && (s.reqs[i].refcnt == 0 <==> i in s.called && i !in s.held)
  {
    hide Run, Happens, UrcLedger, Bounded;
    OpenedLedger();
    RunKeeps(cs, Opened(), es);
    RefcountIsOwners(Run(cs, Opened(), es), i);
  }

  /** An unsolicited code is freed when no one can reach it, and is handled at most once, in order. */
  lemma UrcReferencesExact(cs: seq<UrcClass>, es: seq<Event>, u: nat)
    requires Happens(cs, Opened(), es)
    requires u < |Run(cs, Opened(), es).urcs|
    ensures var s := Run(cs, Opened(), es);
      && s.urcs[u].refcnt == UrcOwners(s, u) <= 1
      && s.handled + s.urcQueue == s.delivered
      && (forall j, k :: 0 <= j < k < |s.delivered| ==> s.delivered[j] < s.delivered[k])
      && (s.currentUrc == Some(u) ==> u !in s.delivered)
  {
    hide Run, Happens, RequestLedger;
    OpenedLedger();
    RunKeeps(cs, Opened(), es);
    UrcOnce(Run(cs, Opened(), es), u);
  }

  lemma UrcOnce(s: Session, u: nat)
    requires UrcLedger(s) && u < |s.urcs|
    ensures s.urcs[u].refcnt == UrcOwners(s, u) <= 1
    ensures s.currentUrc == Some(u) ==> u !in s.delivered
  {
    assert forall k :: 0 <= k < |s.urcQueue| ==> s.urcQueue[k] == s.delivered[|s.handled| + k];
  }

  /** A command is written at most three times and its request outlives at most six timer expiries; while it
      is in hand the writes made and the tries left add up to four and the timer is armed. */
  lemma RetransmissionBounded(cs: seq<UrcClass>, es: seq<Event>, i: nat)
    requires Happens(cs, Opened(), es)
    ensures var s := Run(cs, Opened(), es);
      && Writes(s, i) <= MAX_WRITES
      && Expiries(s, i) <= 2 * MAX_WRITES
      && (Expiries(s, i) == 2 * MAX_WRITES ==> i in s.completed)
      && (s.current == Some(i) && IsLive(s.state) ==>
            Writes(s, i) + s.reqs[i].retransmit == MAX_WRITES + 1 && s.timer.Some?)
  {
    hide Run, Happens, UrcLedger;
    OpenedLedger();
    RunKeeps(cs, Opened(), es);
    RetriesMeaning(Run(cs, Opened(), es), i);
  }

  lemma RetriesMeaning(s: Session, i: nat)
    requires RequestLedger(s)
    ensures Writes(s, i) <= MAX_WRITES && Expiries(s, i) <= 2 * MAX_WRITES
    ensures Expiries(s, i) == 2 * MAX_WRITES ==> i in s.completed
    ensures s.current == Some(i) ==> i < |s.reqs| && Writes(s, i) + s.reqs[i].retransmit == MAX_WRITES + 1
  {
    Positions(s);
    assert RetriesOf(s, i);
    if i < |s.reqs| { Members(s, i); }
  }

  /** References and timer match the state, so no C assertion fails and no timer fires in a state that does
      not expect one. */
  lemma OwnershipAlways(cs: seq<UrcClass>, es: seq<Event>)
    requires Happens(cs, Opened(), es)
    ensures var s := Run(cs, Opened(), es);
      && (s.timer.Some? <==> IsWaiting(s.state))
      && (IsLive(s.state) ==>
            && (s.currentUrc.Some? <==> InUrc(s.state))
            && (InCommand(s.state) ==> s.current.Some?)
            && (s.state == Idle || s.state == ReadingUrc || s.state == Failed ==> s.current.None?))
      && (s.current.Some? ==> s.current.value < |s.reqs| && |s.reqs[s.current.value].text| <= REQUEST_SIZE - 2)
      && (s.currentUrc.Some? ==>
            && s.currentUrc.value < |s.urcs|
            && s.urcs[s.currentUrc.value].cls < |cs| && cs[s.urcs[s.currentUrc.value].cls].multiline)
  {
  }

  /** Once the session has failed, each pass of the main loop completes everything submitted so far. */
  lemma FailedServesAll(cs: seq<UrcClass>, s: Session)
    requires Owned(cs, s) && Ledger(s) && s.state == Failed
    ensures Serve(cs, s).completed == Iota(|s.reqs|) && Serve(cs, s).state == Failed
  {
    FlushKeeps(cs, s);
    FlushFrame(cs, s);
  }

  lemma {:induction false} FlushFrame(cs: seq<UrcClass>, s: Session)
    requires Owned(cs, s)
    ensures var t := Flush(cs, s); t.current == s.current && t.state == s.state && |t.reqs| == |s.reqs|
    decreases |s.queue|
  {
    if s.queue != [] {
      FlushFrame(cs, Complete(s.(queue := s.queue[1..]), s.queue[0], RESP_FAILED));
    }
  }

  lemma NextStranded(cs: seq<UrcClass>, s: Session, e: Event)
    requires Owned(cs, s) && Enabled(s, e) && !IsLive(s.state)
    ensures var t := Next(cs, s, e);
      !IsLive(t.state) && t.completed == s.completed && t.current == s.current && s.queue <= t.queue
  {
  }

  /** After a close request nothing completes any more: what is in hand or queued then stays so. */
  lemma {:induction false} CloseStrands(cs: seq<UrcClass>, s: Session, es: seq<Event>)
    requires Owned(cs, s) && !IsLive(s.state) && Happens(cs, s, es)
    ensures var t := Run(cs, s, es);
      !IsLive(t.state) && t.completed == s.completed && t.current == s.current && s.queue <= t.queue
    decreases |es|
  {
    if es != [] {
      NextStranded(cs, s, es[0]);
      CloseStrands(cs, Next(cs, s, es[0]), es[1..]);
    }
  }
}
