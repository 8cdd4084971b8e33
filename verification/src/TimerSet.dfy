/** chan_vgsm/timer.c as it runs: timer objects linked into one list, earliest first. */
module TimerSet {
  import opened Text
  import opened Timers

  class Timer {
    const id: nat
    var pending: bool
    var expires: int

    constructor (id: nat)
      ensures this.id == id && !pending
    {
      this.id, pending, expires := id, false, 0;
    }
  }

  class Set {
    const known: seq<Timer>         // every timer of the set, by number
    var list: seq<Timer>
    var trace: seq<Call>            // the calls made to the timers' functions
    ghost var armed: seq<Armed>     // the list with its times

    ghost predicate Ours(t: Timer) { t.id < |known| && known[t.id] == t }

    /** Exactly the pending timers are in the list. */
    ghost predicate Linked()
      reads this, known
    {
      && |armed| == |list|
      && (forall i :: 0 <= i < |list| ==> Ours(list[i]) && armed[i] == Armed(list[i].id, list[i].expires))
      && (forall id :: 0 <= id < |known| ==> (known[id].pending <==> Find(armed, id).Some?))
    }

    ghost predicate Valid()
      reads this, known
    {
      (forall i :: 0 <= i < |known| ==> known[i].id == i) && Linked() && Timers.Valid(armed)
    }

    ghost function View(): Schedule
      reads this
    {
      Schedule(armed, trace)
    }

    constructor (known: seq<Timer>)
      requires forall i :: 0 <= i < |known| ==> known[i].id == i && !known[i].pending
      ensures this.known == known && Valid() && View() == EMPTY
    {
      this.known, list, trace := known, [], [];
      armed := [];
    }

    lemma PendingIsFound(t: Timer)
      requires Valid() && Ours(t)
      ensures Find(armed, t.id) == if t.pending then Some(t.expires) else None
    {
      if t.pending {
        var p :| 0 <= p < |armed| && armed[p].id == t.id;
        FindAt(armed, p);
      }
    }

    method Tell(t: Timer, a: Action)
      requires Valid()
      modifies `trace
      ensures Valid() && trace == old(trace) + [Call(t.id, a)]
    {
      trace := trace + [Call(t.id, a)];
    }

    /** list_del(), and no longer pending. */
    method Unlink(t: Timer)
      requires Valid() && Ours(t) && t.pending
      modifies `list, `armed, t`pending
      ensures Valid() && !t.pending && armed == Without(old(armed), t.id)
    {
      assert exists p :: 0 <= p < |armed| && armed[p].id == t.id && list[p] == t;
      var p :| 0 <= p < |list| && list[p] == t;
      Cut(t, p);
    }

    /** The unlinking itself: t is list[p]. */
    method Cut(t: Timer, p: nat)
      requires Valid() && p < |list| && list[p] == t && Ours(t)
      modifies `list, `armed, t`pending
      ensures Valid() && !t.pending && armed == Without(old(armed), t.id)
    {
      ghost var after := armed[..p] + armed[p + 1..];
      assert after == Without(armed, t.id) && Timers.Valid(after) by {
        WithoutAt(armed, p);
        WithoutValid(armed, t.id);
      }
      forall id ensures Find(after, id).Some? == (Find(armed, id).Some? && id != t.id) {
        WithoutFinds(armed, t.id, id);
      }
      Removed(list, armed, p);
      list, armed := list[..p] + list[p + 1..], after;
      t.pending := false;
    }

    lemma Removed(l: seq<Timer>, times: seq<Armed>, p: nat)
      requires |l| == |times| && p < |l|
      requires forall k :: 0 <= k < |l| ==> Ours(l[k]) && times[k] == Armed(l[k].id, l[k].expires)
      ensures var after, times' := l[..p] + l[p + 1..], times[..p] + times[p + 1..];
        forall k :: 0 <= k < |after| ==> Ours(after[k]) && times'[k] == Armed(after[k].id, after[k].expires)
    {
    }

    /** Where _vgsm_timer_add() links a timer in. */
    method Search(at: int) returns (i: nat)
      requires Valid()
      ensures i <= |list| && (i > 0 ==> armed[i - 1].at <= at) && (i < |list| ==> armed[i].at > at)
    {
      if |list| == 0 || list[|list| - 1].expires <= at { return |list|; }
      i := 0;
      while list[i].expires <= at
        invariant i < |list| && (i > 0 ==> armed[i - 1].at <= at)
        decreases |list| - i
      {
        i := i + 1;
      }
    }

    /** The time of a timer that is not in the list. */
    method SetExpires(t: Timer, at: int)
      requires Valid() && Ours(t) && !t.pending
      modifies t`expires
      ensures Valid() && t.expires == at
    {
      PendingIsFound(t);
      assert forall k :: 0 <= k < |armed| ==> armed[k].id != t.id;
      t.expires := at;
    }

    /** _vgsm_timer_add(). */
    method Add(t: Timer, at: int)
      requires Valid() && Ours(t) && !t.pending
      modifies `list, `armed, t
      ensures Valid() && t.pending && t.expires == at && armed == Insert(old(armed), Armed(t.id, at))
    {
      hide Insert;
      SetExpires(t, at);
      var i := Search(at);
      PendingIsFound(t);
      LinkedIn(armed, Armed(t.id, at), i);
      Link(t, i, Insert(armed, Armed(t.id, at)));
    }

    /** The linking itself: t goes before list[i]. */
    method Link(t: Timer, i: nat, ghost after: seq<Armed>)
      requires Valid() && i <= |list| && Ours(t) && Timers.Valid(after)
      requires after == armed[..i] + [Armed(t.id, t.expires)] + armed[i..]
      requires forall id: nat :: Find(after, id).Some? <==> Find(armed, id).Some? || id == t.id
      modifies `list, `armed, t`pending
      ensures Valid() && t.pending && armed == after
    {
      Spliced(list, armed, t, i);
      list, armed := list[..i] + [t] + list[i..], after;
      t.pending := true;
    }

    lemma Spliced(l: seq<Timer>, times: seq<Armed>, t: Timer, i: nat)
      requires |l| == |times| && i <= |l| && Ours(t)
      requires forall k :: 0 <= k < |l| ==> Ours(l[k]) && times[k] == Armed(l[k].id, l[k].expires)
      ensures var after, times' := l[..i] + [t] + l[i..], times[..i] + [Armed(t.id, t.expires)] + times[i..];
        forall k :: 0 <= k < |after| ==> Ours(after[k]) && times'[k] == Armed(after[k].id, after[k].expires)
    {
    }

    /** vgsm_timer_start(): whether a pending timer was moved; one started again for its own time stays as it is. */
    method StartAt(t: Timer, at: int) returns (was: bool)
      requires Valid() && Ours(t)
      modifies this, t
      ensures Valid() && View() == StartTimer(old(View()), t.id, at)
      ensures was <==> old(t.pending) && old(t.expires) != at
      ensures t.pending && t.expires == at
    {
      hide Valid, Insert, Without;
      was := t.pending;
      PendingIsFound(t);
      if t.pending {
        if t.expires == at { return false; }
        Tell(t, Stopped);
        Unlink(t);
      }
      Tell(t, Started);
      Add(t, at);
    }

    /** vgsm_timer_stop(). */
    method StopIt(t: Timer) returns (was: bool)
      requires Valid() && Ours(t)
      modifies this, t
      ensures Valid() && View() == StopTimer(old(View()), t.id) && was == old(t.pending)
    {
      was := t.pending;
      PendingIsFound(t);
      if t.pending {
        Unlink(t);
        Tell(t, Stopped);
      }
    }

    ghost predicate NamesOurs(ops: seq<Op>)
    {
      forall k :: 0 <= k < |ops| ==> ops[k].id < |known|
    }

    method PerformOne(op: Op)
      requires Valid() && op.id < |known|
      modifies this, known
      ensures Valid() && View() == Apply(old(View()), op)
    {
      match op {
        case Start(id, at) => var _ := StartAt(known[id], at);
        case Stop(id) => var _ := StopIt(known[id]);
      }
    }

    /** What a timer's function does to the set. */
    method Perform(ops: seq<Op>)
      requires Valid() && NamesOurs(ops)
      modifies this, known
      ensures Valid() && View() == ApplyAll(old(View()), ops)
    {
      var k := 0;
      while k < |ops|
        invariant k <= |ops| && Valid()
        invariant ApplyAll(View(), ops[k..]) == ApplyAll(old(View()), ops)
      {
        assert ops[k..][0] == ops[k] && ops[k..][1..] == ops[k + 1..];
        PerformOne(ops[k]);
        k := k + 1;
      }
    }

    /** The first timer is unlinked and its function told. */
    method Fire()
      requires Valid() && list != []
      modifies this, known
      ensures Valid() && View() == FireFirst(old(View()))
    {
      var t := list[0];
      WithoutAt(armed, 0);
      FindAt(armed, 0);
      Unlink(t);
      Tell(t, Fired);
    }

    /** One turn of vgsm_timerset_run(), to the first timer's function and back. */
    method FireAndReact(react: seq<Call> -> seq<Op>)
      requires Valid() && list != [] && forall calls :: NamesOurs(react(calls))
      modifies this, known
      ensures Valid() && View() == Round(old(View()), react)
    {
      Fire();
      Perform(react(trace));
    }

    /** vgsm_timerset_run() at the time `now`; the functions react to the calls made so far. */
    method RunTimers(now: int, react: seq<Call> -> seq<Op>)
      requires Valid() && Patient(react, now) && forall calls :: NamesOurs(react(calls))
      modifies this, known
      ensures Valid() && View() == Run(old(View()), now, react)
    {
      while list != [] && list[0].expires < now
        invariant Valid() && Run(View(), now, react) == Run(old(View()), now, react)
        decreases |Expired(armed, now)|
      {
        RoundShrinks(View(), now, react);
        FireAndReact(react);
      }
    }

    /** vgsm_timerset_next(): the time left until a timer expires, -1 when none is pending. */
    method Next(now: int) returns (r: int)
      requires Valid()
      ensures r == -1 <==> forall id :: 0 <= id < |known| ==> !known[id].pending
      ensures r >= -1
      ensures forall id :: 0 <= id < |known| && known[id].pending ==>
                0 <= r <= if known[id].expires > now then known[id].expires - now else 0
      ensures r > 0 ==> exists id :: 0 <= id < |known| && known[id].pending && known[id].expires == now + r
    {
      if list == [] { return -1; }
      r := if list[0].expires - now > 0 then list[0].expires - now else 0;
      FindAt(armed, 0);
      assert known[armed[0].id].pending;
      forall id | 0 <= id < |known| && known[id].pending ensures list[0].expires <= known[id].expires {
        var p :| 0 <= p < |armed| && armed[p].id == id;
        assert armed[0].at <= armed[p].at;
      }
    }
  }
}
