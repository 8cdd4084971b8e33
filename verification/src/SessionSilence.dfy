/** What the main loop does when the modem says nothing: its timers, what it writes, and that requests fail. */
module SessionSilence {
  import opened Text
  import opened Session
  import opened SessionInvariants
  import opened SessionProgress
  import opened SessionResults

  // ---------------------------------------------------------------- timers

  /** The interval that the timer was last started for, in microseconds. */
  ghost predicate TimerExact(s: Session)
  {
    match s.state
    case Closed | Closing | Failed | Idle => s.timer == None
    case Recovering => s.timer == Some(1_000_000)
    case ReadingUrc => s.timer == Some(500_000)
    case AwaitingEcho => s.timer == Some(800_000)
    case AwaitingEchoReadingUrc => s.timer == Some(500_000) || s.timer == Some(800_000)
    case AwaitingSmsEcho | AwaitingSmsEcho1A => s.timer == Some(1_000_000)
    case ReadingResponse =>
      s.current.Some? && s.current.value < |s.reqs| && s.timer == Some(s.reqs[s.current.value].timeout)
  }

  lemma UrcTimer(cs: seq<UrcClass>, s: Session)
    requires Owned(cs, s) && TimerExact(s) && (s.state == Idle || s.state == AwaitingEcho)
    ensures TimerExact(MatchUrc(cs, s).0)
  {
    hide ScanUrc, Owned, ClassOf;
  }

  lemma MoreUrcTimer(cs: seq<UrcClass>, s: Session)
    requires Owned(cs, s) && TimerExact(s) && InUrc(s.state)
    ensures TimerExact(MatchUrcCont(cs, s).0)
  {
    hide FindCrLf, Owned;
  }

  lemma ResponseTimer(cs: seq<UrcClass>, s: Session)
    requires Owned(cs, s) && TimerExact(s) && s.state == ReadingResponse
    ensures TimerExact(MatchResponse(cs, s).0)
  {
    hide ScanResponse, Owned, FinalCode;
  }

  lemma MatchTimer(cs: seq<UrcClass>, s: Session)
    requires Owned(cs, s) && TimerExact(s)
    ensures TimerExact(Match(cs, s).0)
  {
    hide MatchUrc, MatchUrcCont, MatchResponse, MatchEcho, Sendable;
    match s.state
    case Idle => UrcTimer(cs, s);
    case AwaitingEcho => UrcTimer(cs, s);
    case ReadingUrc => MoreUrcTimer(cs, s);
    case AwaitingEchoReadingUrc => MoreUrcTimer(cs, s);
    case ReadingResponse => ResponseTimer(cs, s);
    case _ =>
  }

  lemma {:induction false} DrainTimer(cs: seq<UrcClass>, s: Session)
    requires Owned(cs, s) && TimerExact(s)
    ensures TimerExact(Drain(cs, s))
    decreases |s.buf|
  {
    hide Match;
    var (s1, n) := Match(cs, s);
    if n != 0 {
      MatchTimer(cs, s);
      DrainTimer(cs, Pulled(s1, n));
    }
  }

  lemma {:induction false} FlushTimer(cs: seq<UrcClass>, s: Session)
    requires Owned(cs, s) && s.current.None?
    ensures var t := Flush(cs, s); t.timer == s.timer && t.state == s.state && t.current == s.current
    decreases |s.queue|
  {
    if s.queue != [] { FlushTimer(cs, Complete(s.(queue := s.queue[1..]), s.queue[0], RESP_FAILED)); }
  }

  lemma ReceiveTimer(cs: seq<UrcClass>, s: Session, bytes: string)
    requires Owned(cs, s) && TimerExact(s) && |s.buf| + |bytes| < BUFFER_SIZE
    ensures TimerExact(Receive(cs, s, bytes))
  {
    hide Drain, Sendable;
    if s.state != Failed && s.state != Recovering { DrainTimer(cs, s.(buf := s.buf + UpToNul(bytes))); }
  }

  lemma ServeTimer(cs: seq<UrcClass>, s: Session)
    requires Owned(cs, s) && IsLive(s.state) && TimerExact(s)
    ensures TimerExact(Serve(cs, s))
  {
    hide Flush, Sendable;
    if s.state == Failed { FlushTimer(cs, s); }
  }

  lemma FiredTimer(cs: seq<UrcClass>, s: Session)
    requires Owned(cs, s) && s.timer.Some? && TimerExact(s)
    ensures TimerExact(TimerFired(cs, s))
  {
    hide Sendable;
  }

  lemma NextTimer(cs: seq<UrcClass>, s: Session, e: Event)
    requires Owned(cs, s) && Enabled(s, e) && TimerExact(s)
    ensures TimerExact(Next(cs, s, e))
  {
    hide Serve, Receive, TimerFired, Sendable;
    match e
    case Served => ServeTimer(cs, s);
    case Expired => FiredTimer(cs, s);
    case Arrived(bytes) => ReceiveTimer(cs, s, bytes);
    case _ =>
  }

  lemma {:induction false} RunTimer(cs: seq<UrcClass>, s: Session, es: seq<Event>)
    requires Owned(cs, s) && TimerExact(s) && Happens(cs, s, es)
    ensures TimerExact(Run(cs, s, es))
    decreases |es|
  {
    hide Next, TimerExact;
    if es != [] {
      NextTimer(cs, s, es[0]);
      RunTimer(cs, Next(cs, s, es[0]), es[1..]);
    }
  }

  /** After every run the timer is the one of its state. */
  lemma TimersAlways(cs: seq<UrcClass>, es: seq<Event>)
    requires Happens(cs, Opened(), es)
    ensures TimerExact(Run(cs, Opened(), es))
  {
    RunTimer(cs, Opened(), es);
  }

  // ---------------------------------------------------------------- results

  /** From s to t nothing is completed but as failed, and what was completed keeps its result. */
  ghost predicate OnlyFails(s: Session, t: Session)
  {
    |t.reqs| == |s.reqs| && forall i :: 0 <= i < |s.reqs| ==> FailsOnly(s.reqs[i], t.reqs[i])
  }

  predicate FailsOnly(r: Request, q: Request)
  {
    if r.ready then q.ready && q.err == r.err else q.ready ==> q.err == RESP_FAILED
  }

  lemma OnlyFailsBoth(s: Session, t: Session, u: Session)
    requires OnlyFails(s, t) && OnlyFails(t, u)
    ensures OnlyFails(s, u)
  {
  }

  lemma OneFails(s: Session, t: Session, i: nat, r: Request)
    requires i < |s.reqs| && t.reqs == s.reqs[i := r] && FailsOnly(s.reqs[i], r)
    ensures OnlyFails(s, t)
  {
  }

  lemma {:induction false} FlushFails(cs: seq<UrcClass>, s: Session)
    requires Owned(cs, s) && Ledger(s) && s.current.None?
    ensures OnlyFails(s, Flush(cs, s))
    decreases |s.queue|
  {
    hide Ledger, OnlyFails;
    if s.queue == [] {
      NoneFails(s);
    } else {
      QueuedWaits(s);
      FlushOneKeeps(s);
      var i := s.queue[0];
      var t := Complete(s.(queue := s.queue[1..]), i, RESP_FAILED);
      OneFails(s, t, i, t.reqs[i]);
      FlushFails(cs, t);
      OnlyFailsBoth(s, t, Flush(cs, s));
    }
  }

  lemma NoneFails(s: Session)
    ensures OnlyFails(s, s)
  {
  }

  lemma SilentStepFails(cs: seq<UrcClass>, s: Session, e: Event)
    requires Owned(cs, s) && Ledger(s) && Enabled(s, e) && (e.Served? || e.Expired?)
    ensures OnlyFails(s, Next(cs, s, e))
  {
    hide Ledger, Flush, Sendable;
    var t := Next(cs, s, e);
    if e.Served? {
      if s.state == Failed { FlushFails(cs, s); }
    } else if s.current.Some? {
      InHandWaits(s);
      var i := s.current.value;
      if s.state == Recovering { OneFails(s, t, i, t.reqs[i]); }
    }
  }

  lemma {:induction false} SilentRunFails(cs: seq<UrcClass>, s: Session, es: seq<Event>)
    requires Owned(cs, s) && Ledger(s) && AllSilent(es) && Happens(cs, s, es)
    ensures OnlyFails(s, Run(cs, s, es)) && Ledger(Run(cs, s, es))
    decreases |es|
  {
    hide Ledger, OnlyFails, Next;
    if es == [] {
      NoneFails(s);
    } else {
      var t := Next(cs, s, es[0]);
      SilentStepFails(cs, s, es[0]);
      NextKeeps(cs, s, es[0]);
      assert forall k :: 0 <= k < |es[1..]| ==> es[1..][k] == es[k + 1];
      SilentRunFails(cs, t, es[1..]);
      OnlyFailsBoth(s, t, Run(cs, s, es));
    }
  }

  /** So from every live state at most ten steps of the main loop, with nothing read, complete every request that is
      not completed yet as failed, and leave the results of the others alone. */
  lemma LiveFails(cs: seq<UrcClass>, s: Session) returns (es: seq<Event>)
    requires Owned(cs, s) && Ledger(s) && IsLive(s.state)
    ensures AllSilent(es) && |es| <= 10 && Happens(cs, s, es)
    ensures var t := Run(cs, s, es);
      && t.completed == Iota(|s.reqs|) && |t.reqs| == |s.reqs|
      && forall i :: 0 <= i < |s.reqs| ==> t.reqs[i].err == if i in s.completed then s.reqs[i].err else 102
  {
    hide Run, Happens, UrcLedger, Counted, Bounded, Conserved;
    es := LiveCompletes(cs, s);
    SilentRunFails(cs, s, es);
    var t := Run(cs, s, es);
    forall i | 0 <= i < |s.reqs| ensures t.reqs[i].err == if i in s.completed then s.reqs[i].err else 102 {
      assert FailsOnly(s.reqs[i], t.reqs[i]);
      assert Iota(|s.reqs|)[i] == i && i in t.completed;
    }
  }

  // ---------------------------------------------------------------- what is written

  /** A command without an answer, with n tries left: its timer expires, the recovery sequence is written, its timer
      expires, and so on. */
  function Attempts(i: nat, n: nat): seq<Tx>
  {
    if n == 0 then [] else [Command(i), Recovery] + Attempts(i, n - 1)
  }

  function Expiries2(n: nat): seq<Event> { if n == 0 then [] else [Expired] + ([Expired] + Expiries2(n - 1)) }

  /** The two expiries between an attempt and the next one, or the end. */
  lemma OneAttempt(cs: seq<UrcClass>, s: Session, i: nat)
    requires Owned(cs, s) && s.state == AwaitingEcho && s.current == Some(i) && i < |s.reqs|
    ensures Enabled(s, Expired) && Enabled(Next(cs, s, Expired), Expired)
    ensures var v := Next(cs, Next(cs, s, Expired), Expired);
      && |v.reqs| == |s.reqs| && v.reqs[i].retransmit == s.reqs[i].retransmit - 1
      && (if s.reqs[i].retransmit == 1
          then v.state == Failed && v.current == None && v.completed == s.completed + [i] && v.reqs[i].ready
               && v.reqs[i].err == RESP_FAILED && v.tx == s.tx + [Recovery]
          else v.state == AwaitingEcho && v.current == Some(i) && v.completed == s.completed
               && v.tx == s.tx + [Recovery] + [Command(i)])
  {
    hide Sendable;
    var u := Next(cs, s, Expired);
    assert u.state == Recovering && u.current == Some(i) && u.reqs == s.reqs && u.tx == s.tx + [Recovery];
  }

  lemma AttemptsMore(tx: seq<Tx>, i: nat, n: nat)
    ensures tx + [Recovery] + Attempts(i, 0) == tx + [Recovery]
    ensures tx + [Recovery] + [Command(i)] + [Recovery] + Attempts(i, n) == tx + [Recovery] + Attempts(i, n + 1)
  {
  }

  /** Of a command that is awaited: what is left of this attempt, and the others. */
  lemma {:induction false} Unanswered(cs: seq<UrcClass>, s: Session, i: nat, n: nat)
    requires Owned(cs, s) && s.state == AwaitingEcho && s.current == Some(i) && i < |s.reqs|
    requires s.reqs[i].retransmit == n > 0
    ensures Happens(cs, s, Expiries2(n))
    ensures var t := Run(cs, s, Expiries2(n));
      && t.state == Failed && t.current == None && t.completed == s.completed + [i]
      && i < |t.reqs| && t.reqs[i].ready && t.reqs[i].err == RESP_FAILED
      && t.tx == s.tx + [Recovery] + Attempts(i, n - 1)
    decreases n
  {
    hide Owned, Next, Attempts, Enabled;
    OneAttempt(cs, s, i);
    var u := Next(cs, s, Expired);
    var v := Next(cs, u, Expired);
    AttemptsMore(s.tx, i, if n > 1 then n - 2 else 0);
    if n == 1 {
      assert Happens(cs, v, []) && Run(cs, v, []) == v;
      assert Expiries2(0) == [];
    } else {
      Unanswered(cs, v, i, n - 1);
    }
    OneMore(cs, u, Expired, Expiries2(n - 1));
    OneMore(cs, s, Expired, [Expired] + Expiries2(n - 1));
  }

  lemma ThreeAttempts(tx: seq<Tx>, i: nat)
    ensures tx + [Command(i)] + [Recovery] + Attempts(i, 2)
         == tx + [Command(i), Recovery, Command(i), Recovery, Command(i), Recovery]
  {
    assert Attempts(i, 0) == [];
    assert Attempts(i, 1) == [Command(i), Recovery];
    assert Attempts(i, 2) == [Command(i), Recovery, Command(i), Recovery];
  }

  lemma CommandServed(cs: seq<UrcClass>, s: Session)
    requires Owned(cs, s) && s.state == Idle && s.queue != []
    ensures Enabled(s, Served) && Next(cs, s, Served).current == Some(s.queue[0])
    ensures Next(cs, s, Served).tx == s.tx + [Command(s.queue[0])] && Next(cs, s, Served).completed == s.completed
  {
    hide Sendable;
  }

  /** A command that nobody answers is written three times, each time with the recovery sequence behind it; then it has
      failed, and so has the session. */
  lemma UnansweredRequest(cs: seq<UrcClass>, s: Session)
    requires Owned(cs, s) && Ledger(s) && s.state == Idle && s.queue != []
    ensures var es := [Served] + Expiries2(3); var i := s.queue[0];
      && Happens(cs, s, es)
      && var t := Run(cs, s, es);
      && t.state == Failed && t.completed == s.completed + [i]
      && i < |t.reqs| && t.reqs[i].ready && t.reqs[i].err == 102
      && t.tx == s.tx + [Command(i), Recovery, Command(i), Recovery, Command(i), Recovery]
  {
    hide Owned, Ledger, Next, Attempts, Enabled, Expiries2;
    CommandServed(cs, s);
    var i, t := s.queue[0], Next(cs, s, Served);
    ServedAdvances(cs, s);
    Unanswered(cs, t, i, 3);
    OneMore(cs, s, Served, Expiries2(3));
    ThreeAttempts(s.tx, i);
  }

  /** Without a command in hand a silent modem costs the code that was coming in, and nothing else: the engine writes
      the recovery sequence and is idle again. */
  lemma CodeLost(cs: seq<UrcClass>, s: Session)
    requires Owned(cs, s) && IsWaiting(s.state) && s.current == None
    ensures s.state == ReadingUrc || s.state == Recovering
    ensures Enabled(s, Expired)
    ensures var u := Next(cs, s, Expired); Enabled(u, Expired) <==> s.state == ReadingUrc
    ensures var u := Next(cs, s, Expired); var t := if s.state == ReadingUrc then Next(cs, u, Expired) else u;
      && t.state == Idle && t.buf == "" && t.currentUrc == None && t.current == None
      && t.reqs == s.reqs && t.queue == s.queue && t.completed == s.completed
      && t.urcQueue == s.urcQueue && t.delivered == s.delivered
      && t.tx == s.tx + if s.state == ReadingUrc then [Recovery] else []
  {
    hide Sendable;
  }

  // ---------------------------------------------------------------- closing

  lemma CompletionStep(cs: seq<UrcClass>, s: Session)
    requires Owned(cs, s) && s.state == Closing && s.completions != []
    ensures var t := Next(cs, s, CompletionRun);
      && t.state == Closing && t.completions == s.completions[1..] && t.urcQueue == s.urcQueue
      && t.called == s.called + [s.completions[0]] && t.handled == s.handled
      && t.completed == s.completed && t.tx == s.tx
  {
    hide Sendable;
  }

  lemma HandlerStep(cs: seq<UrcClass>, s: Session)
    requires Owned(cs, s) && s.state == Closing && s.urcQueue != []
    ensures var t := Next(cs, s, UrcHandled);
      && t.state == Closing && t.urcQueue == s.urcQueue[1..] && t.completions == s.completions
      && t.handled == s.handled + [s.urcQueue[0]] && t.called == s.called
      && t.completed == s.completed && t.tx == s.tx
  {
    hide Sendable;
  }

  lemma HeadFirst(done: seq<nat>, l: seq<nat>)
    requires l != []
    ensures done + [l[0]] + l[1..] == done + l
  {
  }

  /** A closing session runs the callbacks that are left and handles the codes that are left, and is closed. */
  lemma {:induction false} CloseFinishes(cs: seq<UrcClass>, s: Session) returns (es: seq<Event>)
    requires Owned(cs, s) && s.state == Closing
    ensures Happens(cs, s, es) && |es| == |s.completions| + |s.urcQueue| + 1
    ensures var t := Run(cs, s, es);
      && t.state == Closed && t.called == s.called + s.completions && t.handled == s.handled + s.urcQueue
      && t.completed == s.completed && t.tx == s.tx
    decreases |s.completions| + |s.urcQueue|
  {
    hide Owned;
    if s.completions != [] {
      CompletionStep(cs, s);
      HeadFirst(s.called, s.completions);
      var rest := CloseFinishes(cs, Next(cs, s, CompletionRun));
      es := [CompletionRun] + rest;
      OneMore(cs, s, CompletionRun, rest);
    } else if s.urcQueue != [] {
      HandlerStep(cs, s);
      HeadFirst(s.handled, s.urcQueue);
      var rest := CloseFinishes(cs, Next(cs, s, UrcHandled));
      es := [UrcHandled] + rest;
      OneMore(cs, s, UrcHandled, rest);
    } else {
      es := [ThreadExited] + [];
      LastStep(cs, s);
    }
  }

  lemma LastStep(cs: seq<UrcClass>, s: Session)
    requires Owned(cs, s) && s.state == Closing && s.completions == [] && s.urcQueue == []
    ensures Happens(cs, s, [ThreadExited] + [])
    ensures var t := Run(cs, s, [ThreadExited] + []);
      t.state == Closed && t.called == s.called && t.handled == s.handled && t.completed == s.completed && t.tx == s.tx
  {
    hide Sendable;
    var t := Next(cs, s, ThreadExited);
    assert Happens(cs, t, []) && Run(cs, t, []) == t;
    OneMore(cs, s, ThreadExited, []);
  }

  /** A close request leads there from every live state. */
  lemma CloseAskedCloses(cs: seq<UrcClass>, s: Session) returns (es: seq<Event>)
    requires Owned(cs, s) && IsLive(s.state)
    ensures Happens(cs, s, [CloseAsked] + es) && Run(cs, s, [CloseAsked] + es).state == Closed
    ensures Run(cs, s, [CloseAsked] + es).called == s.called + s.completions
  {
    es := CloseFinishes(cs, CloseAsk(cs, s));
    OneMore(cs, s, CloseAsked, es);
  }
}
