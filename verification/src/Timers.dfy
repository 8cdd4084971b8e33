/**
 The timer set of chan_vgsm/timer.c as a value: the timers that are pending, earliest first, and the calls made
 to their functions.  What a FIRED callback does to the set is an arbitrary function of the calls made so far.
 */
module Timers {
  import opened Text

  datatype Armed = Armed(id: nat, at: int)

  datatype Action = Started | Stopped | Fired

  datatype Call = Call(id: nat, action: Action)

  datatype Op = Start(id: nat, at: int) | Stop(id: nat)

  datatype Schedule = Schedule(list: seq<Armed>, trace: seq<Call>)

  ghost predicate Sorted(l: seq<Armed>)
  {
    forall i, j :: 0 <= i < j < |l| ==> l[i].at <= l[j].at
  }

  ghost predicate Distinct(l: seq<Armed>)
  {
    forall i, j :: 0 <= i < j < |l| ==> l[i].id != l[j].id
  }

  ghost predicate Valid(l: seq<Armed>) { Sorted(l) && Distinct(l) }

  /** When timer id expires, if it is pending. */
  function Find(l: seq<Armed>, id: nat): (r: Option<int>)
    ensures r.Some? <==> exists i :: 0 <= i < |l| && l[i].id == id
    ensures r.Some? ==> Armed(id, r.value) in l
  {
    if l == [] then None else if l[0].id == id then Some(l[0].at) else Find(l[1..], id)
  }

  /** list_del() of timer id, if it is there. */
  function Without(l: seq<Armed>, id: nat): (r: seq<Armed>)
    ensures |r| <= |l|
  {
    if l == [] then [] else if l[0].id == id then Without(l[1..], id) else [l[0]] + Without(l[1..], id)
  }

  /** The walk of _vgsm_timer_add(): before the first timer that expires later. */
  function Insert(l: seq<Armed>, a: Armed): (r: seq<Armed>)
  {
    if l == [] then [a] else if l[0].at > a.at then [a] + l else [l[0]] + Insert(l[1..], a)
  }

  function Place(l: seq<Armed>, a: Armed): (i: nat)
    ensures i <= |l|
    ensures forall k :: 0 <= k < i ==> l[k].at <= a.at
    ensures i < |l| ==> l[i].at > a.at
  {
    if l == [] || l[0].at > a.at then 0 else 1 + Place(l[1..], a)
  }

  // ---------------------------------------------------------------- the operations

  function StartTimer(s: Schedule, id: nat, at: int): Schedule
  {
    match Find(s.list, id)
    case None => Schedule(Insert(s.list, Armed(id, at)), s.trace + [Call(id, Started)])
    case Some(x) =>
      if x == at then s
      else Schedule(Insert(Without(s.list, id), Armed(id, at)), s.trace + [Call(id, Stopped), Call(id, Started)])
  }

  function StopTimer(s: Schedule, id: nat): Schedule
  {
    match Find(s.list, id)
    case None => s
    case Some(_) => Schedule(Without(s.list, id), s.trace + [Call(id, Stopped)])
  }

  function Apply(s: Schedule, op: Op): Schedule
  {
    match op
    case Start(id, at) => StartTimer(s, id, at)
    case Stop(id) => StopTimer(s, id)
  }

  function ApplyAll(s: Schedule, ops: seq<Op>): Schedule
    decreases |ops|
  {
    if ops == [] then s else ApplyAll(Apply(s, ops[0]), ops[1..])
  }

  /** The first timer is taken off and its function called, before the function changes anything. */
  function FireFirst(s: Schedule): Schedule
    requires s.list != []
  {
    Schedule(s.list[1..], s.trace + [Call(s.list[0].id, Fired)])
  }

  /** The timers at the front that expired before `now`. */
  function Expired(l: seq<Armed>, now: int): (r: seq<Armed>)
    ensures |r| <= |l| && r == l[..|r|]
    ensures forall k :: 0 <= k < |r| ==> r[k].at < now
    ensures |r| < |l| ==> l[|r|].at >= now
  {
    if l == [] || l[0].at >= now then [] else [l[0]] + Expired(l[1..], now)
  }

  /** No start is for a time before `now`. */
  ghost predicate Forward(ops: seq<Op>, now: int)
  {
    forall k :: 0 <= k < |ops| && ops[k].Start? ==> ops[k].at >= now
  }

  /** No function starts a timer for a time before `now`. */
  ghost predicate Patient(react: seq<Call> -> seq<Op>, now: int)
  {
    forall trace :: Forward(react(trace), now)
  }

  /** vgsm_timerset_run(). */
  ghost function Run(s: Schedule, now: int, react: seq<Call> -> seq<Op>): Schedule
    requires Valid(s.list) && Patient(react, now)
    decreases |Expired(s.list, now)|
  {
    if Expired(s.list, now) == [] then s
    else
      RoundShrinks(s, now, react);
      Run(Round(s, react), now, react)
  }

  /** One callback of the run. */
  function Round(s: Schedule, react: seq<Call> -> seq<Op>): Schedule
    requires s.list != []
  {
    ApplyAll(FireFirst(s), react(FireFirst(s).trace))
  }

  // ---------------------------------------------------------------- sorted, distinct, exactly the pending ones

  /** Behind every timer that expires no later, before every one that expires later: sorted, and first come first
      served among equals. */
  lemma {:induction false} InsertIsStable(l: seq<Armed>, a: Armed)
    ensures Insert(l, a) == l[..Place(l, a)] + [a] + l[Place(l, a)..]
  {
    if l != [] && l[0].at <= a.at {
      InsertIsStable(l[1..], a);
      var i := Place(l[1..], a);
      assert l == [l[0]] + l[1..];
      assert l[..1 + i] == [l[0]] + l[1..][..i];
    }
  }

  lemma InsertedAt(l: seq<Armed>, a: Armed, k: nat)
    requires k <= |l|
    ensures |Insert(l, a)| == |l| + 1
    ensures Insert(l, a)[k] == if k < Place(l, a) then l[k] else if k == Place(l, a) then a else l[k - 1]
  {
    InsertIsStable(l, a);
  }

  lemma InsertSorted(l: seq<Armed>, a: Armed)
    requires Sorted(l)
    ensures Sorted(Insert(l, a))
  {
    InsertIsStable(l, a);
    var i, r := Place(l, a), Insert(l, a);
    forall j, k | 0 <= j < k < |r| ensures r[j].at <= r[k].at {
      InsertedAt(l, a, j);
      InsertedAt(l, a, k);
      assert k > i ==> l[i].at <= l[k - 1].at;
    }
  }

  lemma {:induction false} InsertMembers(l: seq<Armed>, a: Armed, id: nat)
    ensures Find(Insert(l, a), id).Some? <==> Find(l, id).Some? || id == a.id
    decreases |l|
  {
    if l != [] && l[0].at <= a.at {
      InsertMembers(l[1..], a, id);
      assert Insert(l, a)[1..] == Insert(l[1..], a);
    } else {
      assert Insert(l, a)[1..] == l;
    }
  }

  lemma InsertValid(l: seq<Armed>, a: Armed)
    requires Valid(l) && Find(l, a.id).None?
    ensures Valid(Insert(l, a))
  {
    InsertSorted(l, a);
    InsertIsStable(l, a);
    var r := Insert(l, a);
    forall j, k | 0 <= j < k < |r| ensures r[j].id != r[k].id {
      InsertedAt(l, a, j);
      InsertedAt(l, a, k);
    }
  }

  lemma {:induction false} WithoutValid(l: seq<Armed>, id: nat)
    requires Valid(l)
    ensures Valid(Without(l, id))
    ensures forall a :: a in Without(l, id) <==> a in l && a.id != id
    decreases |l|
  {
    if l != [] {
      WithoutValid(l[1..], id);
      assert l == [l[0]] + l[1..];
      var r := Without(l[1..], id);
      forall k | 0 <= k < |r| ensures l[0].at <= r[k].at && l[0].id != r[k].id {
        assert r[k] in l[1..];
      }
    }
  }

  lemma WithoutFinds(l: seq<Armed>, id: nat, other: nat)
    requires Valid(l)
    ensures Find(Without(l, id), other).Some? <==> Find(l, other).Some? && other != id
  {
    WithoutValid(l, id);
    if Find(Without(l, id), other).Some? {
      var a := Armed(other, Find(Without(l, id), other).value);
      assert a in l;
    }
    if Find(l, other).Some? && other != id {
      assert Armed(other, Find(l, other).value) in Without(l, id);
    }
  }

  /** Whether a timer is pending after an operation. */
  function PendingAfter(was: bool, op: Op, id: nat): bool
  {
    if op.id == id then op.Start? else was
  }

  lemma ApplyValid(s: Schedule, op: Op)
    requires Valid(s.list)
    ensures Valid(Apply(s, op).list)
    ensures forall id :: Find(Apply(s, op).list, id).Some? == PendingAfter(Find(s.list, id).Some?, op, id)
  {
    WithoutValid(s.list, op.id);
    forall id ensures Find(Without(s.list, op.id), id).Some? == (Find(s.list, id).Some? && id != op.id) {
      WithoutFinds(s.list, op.id, id);
    }
    if op.Start? {
      var a := Armed(op.id, op.at);
      var l := if Find(s.list, op.id).Some? then Without(s.list, op.id) else s.list;
      InsertValid(l, a);
      forall id: nat ensures Find(Insert(l, a), id).Some? <==> Find(l, id).Some? || id == a.id {
        InsertMembers(l, a, id);
      }
    }
  }

  lemma {:induction false} InsertFinds(l: seq<Armed>, a: Armed, id: nat)
    requires Find(l, a.id).None?
    ensures Find(Insert(l, a), id) == if id == a.id then Some(a.at) else Find(l, id)
    decreases |l|
  {
    if l != [] && l[0].at <= a.at {
      assert l[0].id != a.id;
      InsertFinds(l[1..], a, id);
      assert Insert(l, a)[1..] == Insert(l[1..], a);
    } else {
      assert Insert(l, a)[1..] == l;
    }
  }

  lemma {:induction false} WithoutLeaves(l: seq<Armed>, id: nat, other: nat)
    ensures Find(Without(l, id), other) == if other == id then None else Find(l, other)
    decreases |l|
  {
    if l != [] {
      WithoutLeaves(l[1..], id, other);
      if l[0].id != id { assert Without(l, id)[1..] == Without(l[1..], id); }
    }
  }

  /** A start makes the timer pending for its time, whether it was pending or not, and for which time; a stop makes it
      not pending; and either leaves every other timer as it was. */
  lemma ApplyTimes(s: Schedule, op: Op, other: nat)
    requires other != op.id
    ensures Find(Apply(s, op).list, op.id) == if op.Start? then Some(op.at) else None
    ensures Find(Apply(s, op).list, other) == Find(s.list, other)
  {
    WithoutLeaves(s.list, op.id, op.id);
    WithoutLeaves(s.list, op.id, other);
    if op.Start? {
      var l := if Find(s.list, op.id).Some? then Without(s.list, op.id) else s.list;
      InsertFinds(l, Armed(op.id, op.at), op.id);
      InsertFinds(l, Armed(op.id, op.at), other);
    }
  }

  /** A started timer stands behind all others that expire no later; one started for its own time stays where it is. */
  lemma StartedLast(s: Schedule, id: nat, at: int)
    requires Valid(s.list)
    ensures Find(s.list, id) == Some(at) ==> Apply(s, Start(id, at)) == s
    ensures Find(s.list, id) != Some(at) ==>
      var l := Apply(s, Start(id, at)).list;
      forall i, j :: 0 <= i < |l| && 0 <= j < |l| && l[i].id == id && l[j].id != id && l[j].at <= at ==> j < i
  {
    var l := if Find(s.list, id).Some? then Without(s.list, id) else s.list;
    var a := Armed(id, at);
    WithoutLeaves(s.list, id, id);
    if Find(s.list, id).Some? { WithoutValid(s.list, id); }
    LastOfThose(l, a);
    if Find(s.list, id) != Some(at) { assert Apply(s, Start(id, at)).list == Insert(l, a); }
  }

  lemma LastOfThose(l: seq<Armed>, a: Armed)
    requires Sorted(l) && Find(l, a.id).None?
    ensures var r := Insert(l, a);
      forall i, j :: 0 <= i < |r| && 0 <= j < |r| && r[i].id == a.id && r[j].id != a.id && r[j].at <= a.at ==> j < i
  {
    var r, p := Insert(l, a), Place(l, a);
    InsertIsStable(l, a);
    assert r[p] == a;
    forall k | 0 <= k < |r| && k != p ensures r[k].id != a.id && (k < p <==> r[k].at <= a.at) {
      InsertedAt(l, a, k);
      assert r[k] == if k < p then l[k] else l[k - 1];
      if k > p { assert l[p].at <= l[k - 1].at; }
    }
  }

  lemma {:induction false} ApplyAllValid(s: Schedule, ops: seq<Op>)
    requires Valid(s.list)
    ensures Valid(ApplyAll(s, ops).list)
    decreases |ops|
  {
    if ops != [] {
      ApplyValid(s, ops[0]);
      ApplyAllValid(Apply(s, ops[0]), ops[1..]);
    }
  }

  // ---------------------------------------------------------------- what a run fires

  /** The timers of l that no operation names. */
  function Unnamed(l: seq<Armed>, ops: seq<Op>): (r: seq<Armed>)
    ensures |r| <= |l|
    decreases |ops|
  {
    if ops == [] then l else Unnamed(Without(l, ops[0].id), ops[1..])
  }

  lemma NoneExpired(l: seq<Armed>, id: nat, now: int)
    requires Valid(l) && l != [] && l[0].at >= now
    ensures Expired(Without(l, id), now) == []
  {
    WithoutValid(l, id);
    var r := Without(l, id);
    if r != [] {
      assert r[0] in l;
      assert forall k :: 0 <= k < |l| ==> l[k].at >= now;
    }
  }

  lemma {:induction false} ExpiredWithout(l: seq<Armed>, id: nat, now: int)
    requires Valid(l)
    ensures Expired(Without(l, id), now) == Without(Expired(l, now), id)
    decreases |l|
  {
    if l != [] {
      ExpiredWithout(l[1..], id, now);
      if l[0].at >= now {
        NoneExpired(l, id, now);
      } else {
        var e := Expired(l, now);
        assert e[0] == l[0] && e[1..] == Expired(l[1..], now);
      }
    }
  }

  lemma {:induction false} ExpiredInsert(l: seq<Armed>, a: Armed, now: int)
    requires a.at >= now
    ensures Expired(Insert(l, a), now) == Expired(l, now)
    decreases |l|
  {
    if l != [] && l[0].at <= a.at { ExpiredInsert(l[1..], a, now); }
  }

  lemma {:induction false} WithoutAbsent(l: seq<Armed>, id: nat)
    requires Find(l, id).None?
    ensures Without(l, id) == l
    decreases |l|
  {
    if l != [] {
      assert l[0].id != id;
      WithoutAbsent(l[1..], id);
    }
  }

  /** An operation takes the timer it names, and only that, off the expired ones. */
  lemma ApplyExpired(s: Schedule, op: Op, now: int)
    requires Valid(s.list) && Forward([op], now)
    ensures Expired(Apply(s, op).list, now) == Without(Expired(s.list, now), op.id)
  {
    assert [op][0] == op;
    var e := Expired(s.list, now);
    ExpiredWithout(s.list, op.id, now);
    if Find(s.list, op.id).None? { NotExpired(s.list, op.id, now); }
    if op.Start? {
      var a := Armed(op.id, op.at);
      ExpiredInsert(s.list, a, now);
      ExpiredInsert(Without(s.list, op.id), a, now);
      if Find(s.list, op.id) == Some(op.at) { LateNotExpired(s.list, a, now); }
    }
  }

  lemma NotExpired(l: seq<Armed>, id: nat, now: int)
    requires Find(l, id).None?
    ensures Without(Expired(l, now), id) == Expired(l, now)
  {
    WithoutAbsent(Expired(l, now), id);
  }

  lemma LateNotExpired(l: seq<Armed>, a: Armed, now: int)
    requires Valid(l) && a in l && a.at >= now
    ensures Without(Expired(l, now), a.id) == Expired(l, now)
  {
    var e := Expired(l, now);
    var j :| 0 <= j < |l| && l[j] == a;
    assert j >= |e|;
    WithoutAbsent(e, a.id);
  }

  lemma {:induction false} ApplyAllExpired(s: Schedule, ops: seq<Op>, now: int)
    requires Valid(s.list) && Forward(ops, now)
    ensures Expired(ApplyAll(s, ops).list, now) == Unnamed(Expired(s.list, now), ops)
    decreases |ops|
  {
    if ops != [] {
      ApplyValid(s, ops[0]);
      ApplyExpired(s, ops[0], now);
      ApplyAllExpired(Apply(s, ops[0]), ops[1..], now);
    }
  }

  lemma RoundShrinks(s: Schedule, now: int, react: seq<Call> -> seq<Op>)
    requires Valid(s.list) && Patient(react, now) && Expired(s.list, now) != []
    ensures Valid(Round(s, react).list)
    ensures Expired(Round(s, react).list, now)
         == Unnamed(Expired(s.list, now)[1..], react(FireFirst(s).trace))
    ensures |Expired(Round(s, react).list, now)| < |Expired(s.list, now)|
  {
    var f := FireFirst(s);
    assert Forward(react(f.trace), now);
    ApplyAllExpired(f, react(f.trace), now);
    ApplyAllValid(f, react(f.trace));
  }

  /** A timer that fired and what its function then did. */
  datatype Firing = Firing(timer: Armed, ops: seq<Op>)

  ghost function Firings(s: Schedule, now: int, react: seq<Call> -> seq<Op>): seq<Firing>
    requires Valid(s.list) && Patient(react, now)
    decreases |Expired(s.list, now)|
  {
    if Expired(s.list, now) == [] then []
    else
      RoundShrinks(s, now, react);
      [Firing(s.list[0], react(FireFirst(s).trace))] + Firings(Round(s, react), now, react)
  }

  ghost predicate Names(ops: seq<Op>, id: nat)
  {
    exists k :: 0 <= k < |ops| && ops[k].id == id
  }

  /** Of the timers e, in their order, exactly those fire that no earlier one's function names. */
  ghost predicate InTurn(e: seq<Armed>, fs: seq<Firing>)
    decreases |e|
  {
    if e == [] then fs == []
    else fs != [] && fs[0].timer == e[0] && InTurn(Unnamed(e[1..], fs[0].ops), fs[1..])
  }

  /** A run fires the timers that had expired when it began, earliest first, each unless the function of an earlier
      one stopped or restarted it; then none is left that has expired. */
  lemma RunFiresInTurn(s: Schedule, now: int, react: seq<Call> -> seq<Op>)
    requires Valid(s.list) && Patient(react, now)
    ensures FiredIn(Run(s, now, react).trace) == FiredIn(s.trace) + Ids(Firings(s, now, react))
    ensures InTurn(Expired(s.list, now), Firings(s, now, react))
    ensures Valid(Run(s, now, react).list) && Expired(Run(s, now, react).list, now) == []
  {
    RunTellsFirings(s, now, react);
    FiringsInTurn(s, now, react);
  }

  lemma {:induction false} FiringsInTurn(s: Schedule, now: int, react: seq<Call> -> seq<Op>)
    requires Valid(s.list) && Patient(react, now)
    ensures InTurn(Expired(s.list, now), Firings(s, now, react))
    ensures Valid(Run(s, now, react).list) && Expired(Run(s, now, react).list, now) == []
    decreases |Expired(s.list, now)|
  {
    var e := Expired(s.list, now);
    if e != [] {
      RoundShrinks(s, now, react);
      FiringsInTurn(Round(s, react), now, react);
      assert Firings(s, now, react)[1..] == Firings(Round(s, react), now, react);
    }
  }

  /** The timers that a trace tells have FIRED, in order. */
  function FiredIn(trace: seq<Call>): seq<nat>
  {
    if trace == [] then []
    else
      var c := trace[|trace| - 1];
      FiredIn(trace[..|trace| - 1]) + if c.action == Fired then [c.id] else []
  }

  function Ids(fs: seq<Firing>): seq<nat>
  {
    if fs == [] then [] else [fs[0].timer.id] + Ids(fs[1..])
  }

  lemma FiredAppends(trace: seq<Call>, c: Call)
    ensures FiredIn(trace + [c]) == FiredIn(trace) + if c.action == Fired then [c.id] else []
  {
    assert (trace + [c])[..|trace|] == trace;
  }

  lemma ApplyFiresNone(s: Schedule, op: Op)
    ensures FiredIn(Apply(s, op).trace) == FiredIn(s.trace)
  {
    FiredAppends(s.trace, Call(op.id, Started));
    FiredAppends(s.trace, Call(op.id, Stopped));
    FiredAppends(s.trace + [Call(op.id, Stopped)], Call(op.id, Started));
    assert s.trace + [Call(op.id, Stopped), Call(op.id, Started)]
        == s.trace + [Call(op.id, Stopped)] + [Call(op.id, Started)];
  }

  lemma {:induction false} ApplyAllFiresNone(s: Schedule, ops: seq<Op>)
    ensures FiredIn(ApplyAll(s, ops).trace) == FiredIn(s.trace)
    decreases |ops|
  {
    if ops != [] {
      ApplyFiresNone(s, ops[0]);
      ApplyAllFiresNone(Apply(s, ops[0]), ops[1..]);
    }
  }

  lemma RoundFiresFirst(s: Schedule, react: seq<Call> -> seq<Op>)
    requires s.list != []
    ensures FiredIn(Round(s, react).trace) == FiredIn(s.trace) + [s.list[0].id]
  {
    FiredAppends(s.trace, Call(s.list[0].id, Fired));
    ApplyAllFiresNone(FireFirst(s), react(FireFirst(s).trace));
  }

  lemma IdsNext(f: Firing, rest: seq<Firing>)
    ensures Ids([f] + rest) == [f.timer.id] + Ids(rest)
  {
    assert ([f] + rest)[1..] == rest;
  }

  lemma Regroup(a: seq<nat>, x: nat, b: seq<nat>)
    ensures a + [x] + b == a + ([x] + b)
  {
  }

  /** The FIRED calls that a run adds to the trace are those of its firings. */
  lemma {:induction false} RunTellsFirings(s: Schedule, now: int, react: seq<Call> -> seq<Op>)
    requires Valid(s.list) && Patient(react, now)
    ensures FiredIn(Run(s, now, react).trace) == FiredIn(s.trace) + Ids(Firings(s, now, react))
    decreases |Expired(s.list, now)|
  {
    if Expired(s.list, now) != [] {
      RoundShrinks(s, now, react);
      RoundFiresFirst(s, react);
      RunTellsFirings(Round(s, react), now, react);
      IdsNext(Firing(s.list[0], react(FireFirst(s).trace)), Firings(Round(s, react), now, react));
      Regroup(FiredIn(s.trace), s.list[0].id, Ids(Firings(Round(s, react), now, react)));
    }
  }

  lemma {:induction false} UnnamedMembers(l: seq<Armed>, ops: seq<Op>)
    requires Valid(l)
    ensures Valid(Unnamed(l, ops))
    ensures forall a :: a in Unnamed(l, ops) <==> a in l && !Names(ops, a.id)
    decreases |ops|
  {
    if ops != [] {
      WithoutValid(l, ops[0].id);
      UnnamedMembers(Without(l, ops[0].id), ops[1..]);
      forall id ensures Names(ops, id) <==> ops[0].id == id || Names(ops[1..], id) {
        if Names(ops[1..], id) {
          var k :| 0 <= k < |ops| - 1 && ops[1..][k].id == id;
          assert ops[k + 1].id == id;
        }
        if Names(ops, id) && ops[0].id != id {
          var k :| 0 <= k < |ops| && ops[k].id == id;
          assert ops[1..][k - 1].id == id;
        }
      }
    }
  }

  ghost predicate FiresIn(fs: seq<Firing>, a: Armed)
  {
    exists k :: 0 <= k < |fs| && fs[k].timer == a
  }

  lemma {:induction false} OnlyExpiredFire(e: seq<Armed>, fs: seq<Firing>, a: Armed)
    requires Valid(e) && InTurn(e, fs) && a !in e
    ensures !FiresIn(fs, a)
    decreases |e|
  {
    if e != [] {
      UnnamedMembers(e[1..], fs[0].ops);
      OnlyExpiredFire(Unnamed(e[1..], fs[0].ops), fs[1..], a);
      FiresLater(fs, a);
    }
  }

  lemma FiresLater(fs: seq<Firing>, a: Armed)
    requires fs != []
    ensures FiresIn(fs, a) <==> fs[0].timer == a || FiresIn(fs[1..], a)
  {
    if FiresIn(fs[1..], a) {
      var k :| 0 <= k < |fs| - 1 && fs[1..][k].timer == a;
      assert fs[k + 1].timer == a;
    }
    if FiresIn(fs, a) && fs[0].timer != a {
      var k :| 0 <= k < |fs| && fs[k].timer == a;
      assert fs[1..][k - 1].timer == a;
    }
  }

  /** A function that ran before timer a could fire stopped or restarted it. */
  ghost predicate Silenced(fs: seq<Firing>, a: Armed)
  {
    exists k :: 0 <= k < |fs| && Names(fs[k].ops, a.id) && !FiresIn(fs[..k + 1], a)
  }

  lemma SilencedLater(fs: seq<Firing>, a: Armed)
    requires fs != []
    ensures Silenced(fs, a) <==> fs[0].timer != a && (Names(fs[0].ops, a.id) || Silenced(fs[1..], a))
  {
    forall k | 0 <= k < |fs| ensures FiresIn(fs[..k + 1], a) <==> fs[0].timer == a || FiresIn(fs[1..][..k], a) {
      FiresLater(fs[..k + 1], a);
      assert fs[..k + 1][1..] == fs[1..][..k];
    }
    if Silenced(fs, a) {
      var k :| 0 <= k < |fs| && Names(fs[k].ops, a.id) && !FiresIn(fs[..k + 1], a);
      if k > 0 { assert Names(fs[1..][k - 1].ops, a.id); }
    }
    if fs[0].timer != a {
      if Names(fs[0].ops, a.id) { assert !FiresIn(fs[..0 + 1], a); }
      if Silenced(fs[1..], a) {
        var k :| 0 <= k < |fs| - 1 && Names(fs[1..][k].ops, a.id) && !FiresIn(fs[1..][..k + 1], a);
        assert Names(fs[k + 1].ops, a.id) && !FiresIn(fs[..k + 1 + 1], a);
      }
    }
  }

  /** The same, timer by timer. */
  lemma {:induction false} FiresUnlessSilenced(e: seq<Armed>, fs: seq<Firing>, a: Armed)
    requires Valid(e) && InTurn(e, fs) && a in e
    ensures FiresIn(fs, a) <==> !Silenced(fs, a)
    decreases |e|
  {
    FiresLater(fs, a);
    SilencedLater(fs, a);
    if a != e[0] {
      var rest := Unnamed(e[1..], fs[0].ops);
      UnnamedMembers(e[1..], fs[0].ops);
      assert a in e[1..];
      if Names(fs[0].ops, a.id) { OnlyExpiredFire(rest, fs[1..], a); }
      else { FiresUnlessSilenced(rest, fs[1..], a); }
    }
  }

  /** A function that starts its timer again for the past keeps the run going for ever: the list never changes. */
  lemma ImpatientRunStays(s: Schedule, id: nat, at: int)
    requires s.list == [Armed(id, at)]
    ensures ApplyAll(FireFirst(s), [Start(id, at)]).list == s.list
  {
    assert FireFirst(s).list == [];
    var t := StartTimer(FireFirst(s), id, at);
    assert [Start(id, at)][1..] == [];
    assert ApplyAll(t, []) == t;
  }

  // ---------------------------------------------------------------- calls alternate

  /** The calls made for timer id. */
  function Of(trace: seq<Call>, id: nat): (r: seq<Action>)
  {
    if trace == [] then []
    else
      var c := trace[|trace| - 1];
      Of(trace[..|trace| - 1], id) + if c.id == id then [c.action] else []
  }

  /** STARTED first, and then in turn with one of STOPPED and FIRED. */
  ghost predicate Alternates(xs: seq<Action>)
  {
    forall k :: 0 <= k < |xs| ==> (xs[k] == Started <==> k % 2 == 0)
  }

  /** References taken on STARTED and dropped on STOPPED and FIRED. */
  function Taken(xs: seq<Action>): int
  {
    if xs == [] then 0
    else Taken(xs[..|xs| - 1]) + if xs[|xs| - 1] == Started then 1 else -1
  }

  ghost predicate BalancedFor(s: Schedule, id: nat)
  {
    var xs := Of(s.trace, id);
    Alternates(xs) && (|xs| % 2 == 1 <==> Find(s.list, id).Some?)
  }

  ghost predicate Balanced(s: Schedule)
  {
    forall id: nat :: BalancedFor(s, id)
  }

  lemma OfAppends(trace: seq<Call>, c: Call, id: nat)
    ensures Of(trace + [c], id) == Of(trace, id) + if c.id == id then [c.action] else []
  {
    assert (trace + [c])[..|trace|] == trace;
  }

  lemma {:induction false} TakenIsPending(xs: seq<Action>)
    requires Alternates(xs)
    ensures Taken(xs) == |xs| % 2
    decreases |xs|
  {
    if xs != [] { TakenIsPending(xs[..|xs| - 1]); }
  }

  lemma AlternatesNext(xs: seq<Action>, a: Action)
    requires Alternates(xs) && ((a == Started) == (|xs| % 2 == 0))
    ensures Alternates(xs + [a]) && |xs + [a]| % 2 != |xs| % 2
  {
  }

  /** One call more: STARTED for a timer that becomes pending, another action for one that no longer is. */
  lemma CallBalanced(s: Schedule, t: Schedule, c: Call)
    requires Balanced(s) && t.trace == s.trace + [c]
    requires forall id: nat :: id != c.id ==> Find(t.list, id).Some? == Find(s.list, id).Some?
    requires Find(t.list, c.id).Some? == (c.action == Started) != Find(s.list, c.id).Some?
    ensures Balanced(t)
  {
    forall id: nat ensures BalancedFor(t, id) {
      assert BalancedFor(s, id);
      OfAppends(s.trace, c, id);
      if id == c.id { AlternatesNext(Of(s.trace, id), c.action); }
    }
  }

  lemma StopBalanced(s: Schedule, id: nat)
    requires Valid(s.list) && Balanced(s) && Find(s.list, id).Some?
    ensures Balanced(StopTimer(s, id))
  {
    forall x: nat ensures Find(Without(s.list, id), x).Some? == (Find(s.list, x).Some? && x != id) {
      WithoutFinds(s.list, id, x);
    }
    CallBalanced(s, StopTimer(s, id), Call(id, Stopped));
  }

  lemma StartBalanced(s: Schedule, a: Armed)
    requires Valid(s.list) && Balanced(s) && Find(s.list, a.id).None?
    ensures Balanced(Schedule(Insert(s.list, a), s.trace + [Call(a.id, Started)]))
  {
    forall x: nat ensures Find(Insert(s.list, a), x).Some? <==> Find(s.list, x).Some? || x == a.id {
      InsertMembers(s.list, a, x);
    }
    CallBalanced(s, Schedule(Insert(s.list, a), s.trace + [Call(a.id, Started)]), Call(a.id, Started));
  }

  lemma ApplyBalanced(s: Schedule, op: Op)
    requires Valid(s.list) && Balanced(s)
    ensures Balanced(Apply(s, op))
  {
    if Find(s.list, op.id).None? {
      if op.Start? { StartBalanced(s, Armed(op.id, op.at)); }
    } else {
      StopBalanced(s, op.id);
      var stopped := StopTimer(s, op.id);
      ApplyValid(s, Stop(op.id));
      if op.Start? {
        StartBalanced(stopped, Armed(op.id, op.at));
        assert s.trace + [Call(op.id, Stopped), Call(op.id, Started)] == stopped.trace + [Call(op.id, Started)];
      }
    }
  }

  lemma FireBalanced(s: Schedule)
    requires Valid(s.list) && Balanced(s) && s.list != []
    ensures Balanced(FireFirst(s))
  {
    var first := s.list[0].id;
    assert Find(s.list[1..], first).None?;
    CallBalanced(s, FireFirst(s), Call(first, Fired));
  }

  lemma {:induction false} ApplyAllBalanced(s: Schedule, ops: seq<Op>)
    requires Valid(s.list) && Balanced(s)
    ensures Balanced(ApplyAll(s, ops))
    decreases |ops|
  {
    if ops != [] {
      ApplyValid(s, ops[0]);
      ApplyBalanced(s, ops[0]);
      ApplyAllBalanced(Apply(s, ops[0]), ops[1..]);
    }
  }

  lemma {:induction false} RunBalanced(s: Schedule, now: int, react: seq<Call> -> seq<Op>)
    requires Valid(s.list) && Patient(react, now) && Balanced(s)
    ensures Balanced(Run(s, now, react))
    decreases |Expired(s.list, now)|
  {
    if Expired(s.list, now) != [] {
      RoundShrinks(s, now, react);
      FireBalanced(s);
      ApplyAllBalanced(FireFirst(s), react(FireFirst(s).trace));
      RunBalanced(Round(s, react), now, react);
    }
  }

  /** What the owner of a timer may do from outside: operate on it, or run the set. */
  datatype Step = Operate(op: Op) | RunAt(now: int, react: seq<Call> -> seq<Op>)

  ghost predicate Allowed(e: Step) { e.RunAt? ==> Patient(e.react, e.now) }

  ghost function After(s: Schedule, es: seq<Step>): Schedule
    requires Valid(s.list) && forall k :: 0 <= k < |es| ==> Allowed(es[k])
    decreases |es|
  {
    if es == [] then s
    else
      var e := es[0];
      StepValid(s, e);
      After(match e case Operate(op) => Apply(s, op) case RunAt(now, react) => Run(s, now, react), es[1..])
  }

  lemma StepValid(s: Schedule, e: Step)
    requires Valid(s.list) && Allowed(e)
    ensures Valid((match e case Operate(op) => Apply(s, op) case RunAt(now, react) => Run(s, now, react)).list)
  {
    match e
    case Operate(op) => ApplyValid(s, op);
    case RunAt(now, react) => RunFiresInTurn(s, now, react);
  }

  /** Over any history the list stays sorted without duplicates, every timer's calls alternate, and a function that
      takes a reference on STARTED and drops it otherwise holds one exactly while its timer is pending. */
  lemma {:induction false} HistoryBalanced(s: Schedule, es: seq<Step>, id: nat)
    requires Valid(s.list) && Balanced(s) && forall k :: 0 <= k < |es| ==> Allowed(es[k])
    ensures var t := After(s, es);
      && Valid(t.list) && Alternates(Of(t.trace, id))
      && Taken(Of(t.trace, id)) == if Find(t.list, id).Some? then 1 else 0
    decreases |es|
  {
    if es == [] {
      assert BalancedFor(s, id);
      TakenIsPending(Of(s.trace, id));
    } else {
      StepValid(s, es[0]);
      match es[0] {
        case Operate(op) => ApplyBalanced(s, op); HistoryBalanced(Apply(s, op), es[1..], id);
        case RunAt(now, react) => RunBalanced(s, now, react); HistoryBalanced(Run(s, now, react), es[1..], id);
      }
    }
  }

  const EMPTY := Schedule([], [])

  /** The same for a new timer set. */
  lemma TimersAlternate(es: seq<Step>, id: nat)
    requires forall k :: 0 <= k < |es| ==> Allowed(es[k])
    ensures var t := After(EMPTY, es);
      && Valid(t.list) && Alternates(Of(t.trace, id))
      && Taken(Of(t.trace, id)) == if Find(t.list, id).Some? then 1 else 0
  {
    HistoryBalanced(EMPTY, es, id);
  }

  // ---------------------------------------------------------------- positions

  lemma {:induction false} FindAt(l: seq<Armed>, p: nat)
    requires Distinct(l) && p < |l|
    ensures Find(l, l[p].id) == Some(l[p].at)
    decreases |l|
  {
    if p > 0 { FindAt(l[1..], p - 1); }
  }

  lemma {:induction false} WithoutAt(l: seq<Armed>, p: nat)
    requires Distinct(l) && p < |l|
    ensures Without(l, l[p].id) == l[..p] + l[p + 1..]
    decreases |l|
  {
    if p == 0 {
      if Find(l[1..], l[0].id).Some? { assert false; }
      WithoutAbsent(l[1..], l[0].id);
    } else {
      WithoutAt(l[1..], p - 1);
      assert l[..p] == [l[0]] + l[1..][..p - 1];
    }
  }

  lemma InsertedHere(l: seq<Armed>, a: Armed, i: nat)
    requires Sorted(l) && i <= |l| && (i > 0 ==> l[i - 1].at <= a.at) && (i < |l| ==> l[i].at > a.at)
    ensures Insert(l, a) == l[..i] + [a] + l[i..]
  {
    InsertIsStable(l, a);
  }

  /** A timer that is not pending is linked in before position i. */
  lemma LinkedIn(l: seq<Armed>, a: Armed, i: nat)
    requires Valid(l) && Find(l, a.id).None?
    requires i <= |l| && (i > 0 ==> l[i - 1].at <= a.at) && (i < |l| ==> l[i].at > a.at)
    ensures l[..i] + [a] + l[i..] == Insert(l, a) && Valid(Insert(l, a))
    ensures forall id: nat :: Find(Insert(l, a), id).Some? <==> Find(l, id).Some? || id == a.id
    ensures forall k :: 0 <= k < |l| ==> l[k].id != a.id
  {
    InsertedHere(l, a, i);
    InsertValid(l, a);
    forall id: nat ensures Find(Insert(l, a), id).Some? <==> Find(l, id).Some? || id == a.id {
      InsertMembers(l, a, id);
    }
  }
}
