/**
 Whether a request can still complete: exactly while its session is live.  Even a modem that never answers lets
 every request complete, as failed, within ten steps of the main loop.
 */
module SessionProgress {
  import opened Session
  import opened SessionInvariants

  /** The request in hand exists and its tries have not run below zero. */
  predicate Sound(s: Session)
  {
    s.current.Some? ==> s.current.value < |s.reqs| && s.reqs[s.current.value].retransmit >= 0
  }

  /** Steps of the main loop until everything submitted so far is completed, when the modem stays silent. */
  function StepsLeft(s: Session): nat
    requires Sound(s)
  {
    if s.state == Failed then 1
    else if s.current.Some? then 2 * s.reqs[s.current.value].retransmit + if s.state == Recovering then 0 else 1
    else if s.state == Idle then if s.queue == [] then 0 else 2 * MAX_WRITES + 2
    else 2 * MAX_WRITES + if s.state == Recovering then 3 else 4
  }

  /** The main loop with nothing to read: it serves requests where it can and else waits for its timer. */
  function Silent(st: State): Event { if st == Idle || st == Failed then Served else Expired }

  lemma TriesLeft(s: Session)
    requires Ledger(s) && s.current.Some?
    ensures s.current.value < |s.reqs| && 1 <= s.reqs[s.current.value].retransmit <= MAX_WRITES
    ensures s.current.value == |s.completed|
  {
    Positions(s);
    assert RetriesOf(s, s.current.value);
  }

  lemma StepsBounded(s: Session)
    requires Ledger(s)
    ensures Sound(s) && StepsLeft(s) <= 10
  {
    if s.current.Some? { TriesLeft(s); }
  }

  /** Nothing left to do means that everything is completed. */
  lemma NoStepsLeft(cs: seq<UrcClass>, s: Session)
    requires Owned(cs, s) && Ledger(s) && IsLive(s.state) && s.state == Idle && s.queue == []
    ensures s.completed == Iota(|s.reqs|)
  {
    assert s.completed + InHand(s) + s.queue == s.completed;
  }

  lemma ServedAdvances(cs: seq<UrcClass>, s: Session)
    requires Owned(cs, s) && Ledger(s) && s.state == Idle && s.queue != []
    ensures var t := Next(cs, s, Served);
      && Ledger(t) && IsLive(t.state) && |t.reqs| == |s.reqs|
      && t.current.Some? && t.current.value < |t.reqs| && t.reqs[t.current.value].retransmit == MAX_WRITES
      && t.state == AwaitingEcho
  {
    NextKeeps(cs, s, Served);
    Positions(s);
    var i := s.queue[0];
    assert RetriesOf(s, i);
  }

  lemma ExpiredAdvances(cs: seq<UrcClass>, s: Session)
    requires Owned(cs, s) && Ledger(s) && IsLive(s.state) && s.state != Idle && s.state != Failed
    ensures Enabled(s, Expired)
    ensures var t := Next(cs, s, Expired);
      Ledger(t) && IsLive(t.state) && |t.reqs| == |s.reqs|
    ensures s.state != Recovering ==>
      var t := Next(cs, s, Expired);
      t.state == Recovering && t.current == s.current && t.reqs == s.reqs
    ensures s.state == Recovering && s.current.None? ==>
      var t := Next(cs, s, Expired);
      t.state == Idle && t.current.None?
    ensures s.state == Recovering && s.current.Some? ==>
      var t := Next(cs, s, Expired); var i := s.current.value;
      t.state == Failed
      || (t.state == AwaitingEcho && t.current == s.current && i < |t.reqs|
          && t.reqs[i].retransmit == s.reqs[i].retransmit - 1)
  {
    NextKeeps(cs, s, Expired);
    if s.current.Some? { TriesLeft(s); }
  }

  lemma FewerAfterServed(s: Session, t: Session)
    requires Sound(s) && Sound(t) && s.state == Idle && s.current.None? && s.queue != []
    requires t.state == AwaitingEcho && t.current.Some? && t.reqs[t.current.value].retransmit == MAX_WRITES
    ensures StepsLeft(t) < StepsLeft(s)
  {
  }

  lemma FewerAfterLoss(s: Session, t: Session)
    requires Sound(s) && Sound(t) && s.state != Recovering && s.state != Failed && s.state != Idle
    requires t.state == Recovering && t.current == s.current && t.reqs == s.reqs
    ensures StepsLeft(t) < StepsLeft(s)
  {
  }

  lemma FewerAfterRecovery(s: Session, t: Session)
    requires Sound(s) && Sound(t) && s.state == Recovering
    requires s.current.None? ==> t.state == Idle && t.current.None?
    requires s.current.Some? ==> s.reqs[s.current.value].retransmit >= 1
    requires s.current.Some? ==>
      var i := s.current.value;
      t.state == Failed || (t.state == AwaitingEcho && t.current == s.current
                            && t.reqs[i].retransmit == s.reqs[i].retransmit - 1)
    ensures StepsLeft(t) < StepsLeft(s)
  {
  }

  /** Each silent step brings the end nearer. */
  lemma SilentAdvances(cs: seq<UrcClass>, s: Session)
    requires Owned(cs, s) && Ledger(s) && IsLive(s.state) && s.state != Failed && (s.state == Idle ==> s.queue != [])
    ensures Enabled(s, Silent(s.state)) && Sound(s)
    ensures var t := Next(cs, s, Silent(s.state));
      Ledger(t) && IsLive(t.state) && |t.reqs| == |s.reqs| && Sound(t) && StepsLeft(t) < StepsLeft(s)
  {
    StepsBounded(s);
    if s.state == Idle {
      ServedAdvances(cs, s);
      FewerAfterServed(s, Next(cs, s, Served));
    } else {
      ExpiredAdvances(cs, s);
      var t := Next(cs, s, Expired);
      StepsBounded(t);
      if s.state == Recovering {
        if s.current.Some? { TriesLeft(s); }
        FewerAfterRecovery(s, t);
      } else {
        FewerAfterLoss(s, t);
      }
    }
  }

  /** Served and Expired events alone. */
  ghost predicate AllSilent(es: seq<Event>) { forall k :: 0 <= k < |es| ==> es[k].Served? || es[k].Expired? }

  lemma {:induction false} SilentCompletes(cs: seq<UrcClass>, s: Session) returns (es: seq<Event>)
    requires Owned(cs, s) && Ledger(s) && IsLive(s.state)
    requires Sound(s)
    ensures AllSilent(es) && |es| <= StepsLeft(s) && Happens(cs, s, es)
    ensures Run(cs, s, es).completed == Iota(|s.reqs|)
    decreases StepsLeft(s), 1
  {
    if s.state == Idle && s.queue == [] {
      NoStepsLeft(cs, s);
      es := [];
    } else if s.state == Failed {
      es := ServeFailed(cs, s);
    } else {
      es := SilentGoesOn(cs, s);
    }
  }

  lemma {:induction false} SilentGoesOn(cs: seq<UrcClass>, s: Session) returns (es: seq<Event>)
    requires Owned(cs, s) && Ledger(s) && IsLive(s.state) && s.state != Failed && (s.state == Idle ==> s.queue != [])
    requires Sound(s)
    ensures AllSilent(es) && |es| <= StepsLeft(s) && Happens(cs, s, es)
    ensures Run(cs, s, es).completed == Iota(|s.reqs|)
    decreases StepsLeft(s), 0
  {
    hide Sound, Next;
    SilentAdvances(cs, s);
    var e := Silent(s.state);
    var rest := SilentCompletes(cs, Next(cs, s, e));
    es := [e] + rest;
    OneMore(cs, s, e, rest);
  }

  lemma ServeFailed(cs: seq<UrcClass>, s: Session) returns (es: seq<Event>)
    requires Owned(cs, s) && Ledger(s) && s.state == Failed
    ensures AllSilent(es) && |es| == 1 && Happens(cs, s, es)
    ensures Run(cs, s, es).completed == Iota(|s.reqs|)
  {
    FailedServesAll(cs, s);
    es := [Served];
    OneMore(cs, s, Served, []);
  }

  /** From every live state some ten steps of the main loop complete all that is submitted, whatever the modem. */
  lemma LiveCompletes(cs: seq<UrcClass>, s: Session) returns (es: seq<Event>)
    requires Owned(cs, s) && Ledger(s) && IsLive(s.state)
    ensures AllSilent(es) && |es| <= 10 && Happens(cs, s, es)
    ensures Run(cs, s, es).completed == Iota(|s.reqs|)
  {
    StepsBounded(s);
    es := SilentCompletes(cs, s);
  }

  /** Some continuation completes request i. */
  ghost predicate CanComplete(cs: seq<UrcClass>, s: Session, i: nat)
    requires Owned(cs, s)
  {
    exists es :: Happens(cs, s, es) && i in Run(cs, s, es).completed
  }

  /** A request that is not completed yet can still complete exactly while its session is live. */
  lemma CompletableExactly(cs: seq<UrcClass>, s: Session, i: nat)
    requires Owned(cs, s) && Ledger(s) && i < |s.reqs| && i !in s.completed
    ensures CanComplete(cs, s, i) <==> IsLive(s.state)
  {
    if IsLive(s.state) {
      var es := LiveCompletes(cs, s);
      assert Iota(|s.reqs|)[i] == i;
      assert Happens(cs, s, es) && i in Run(cs, s, es).completed;
    } else {
      forall es | Happens(cs, s, es) ensures i !in Run(cs, s, es).completed { CloseStrands(cs, s, es); }
    }
  }

  /** The same of every session that was opened and run. */
  lemma CompletableInRun(cs: seq<UrcClass>, es: seq<Event>, i: nat)
    requires Happens(cs, Opened(), es)
    requires i < |Run(cs, Opened(), es).reqs| && i !in Run(cs, Opened(), es).completed
    ensures CanComplete(cs, Run(cs, Opened(), es), i) <==> IsLive(Run(cs, Opened(), es).state)
  {
    OpenedLedger();
    RunKeeps(cs, Opened(), es);
    CompletableExactly(cs, Run(cs, Opened(), es), i);
  }

  /** So not every request completes: one that is queued when the session closes never does. */
  lemma StrandedRequest(cs: seq<UrcClass>)
    ensures var es := [Submitted("AT", [], 0), CloseAsked];
      Happens(cs, Opened(), es) && |Run(cs, Opened(), es).reqs| == 1 && !CanComplete(cs, Run(cs, Opened(), es), 0)
  {
    var s := Submit(cs, Opened(), "AT", [], 0).0;
    var t := CloseAsk(cs, s);
    assert Happens(cs, t, []) && Run(cs, t, []) == t;
    OneMore(cs, s, CloseAsked, []);
    OneMore(cs, Opened(), Submitted("AT", [], 0), [CloseAsked]);
    assert [CloseAsked] + [] == [CloseAsked];
    assert [Submitted("AT", [], 0)] + [CloseAsked] == [Submitted("AT", [], 0), CloseAsked];
    forall es | Happens(cs, t, es) ensures 0 !in Run(cs, t, es).completed { CloseStrands(cs, t, es); }
  }
}
