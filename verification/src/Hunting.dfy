/**
 The search of a hunt group as a function of which members are free: positions 0 to n - 1 of the circular member
 list, walked from a starting one.
 */
module Hunting {
  import opened Text

  datatype Mode = Sequential | Cyclic

  function Next(n: nat, i: nat): (r: nat)
    requires i < n
    ensures r < n
  {
    if i + 1 == n then 0 else i + 1
  }

  /** k places further round. */
  function Ahead(n: nat, i: nat, k: nat): (r: nat)
    requires i < n && k <= n
    ensures r < n
  {
    if i + k < n then i + k else i + k - n
  }

  lemma StartOfRound(n: nat, i: nat)
    requires i < n
    ensures Ahead(n, i, 0) == i
  {
  }

  lemma AheadNext(n: nat, i: nat, k: nat)
    requires i < n && 0 < k <= n
    ensures Ahead(n, Next(n, i), k - 1) == Ahead(n, i, k)
  {
  }

  /** How far round p is from i. */
  function Distance(n: nat, i: nat, p: nat): (d: nat)
    requires i < n && p < n
    ensures d < n && Ahead(n, i, d) == p
  {
    if p >= i then p - i else p + n - i
  }

  /** The loop of visdn_hg_hunt(), with `left` members still to be tried. */
  function Scan(free: seq<bool>, i: nat, left: nat, first: Option<nat>): (r: Option<nat>)
    requires i < |free|
    ensures r.Some? ==> r.value < |free| && free[r.value]
    decreases left
  {
    if left == 0 || first == Some(i) then None
    else if free[i] then Some(i)
    else Scan(free, Next(|free|, i), left - 1, first)
  }

  /** One turn of it, and whether the walk is back where it started. */
  lemma ScanTurn(free: seq<bool>, start: nat, i: nat, left: nat, first: Option<nat>)
    requires start < |free| && 0 < left <= |free| && i == Ahead(|free|, start, |free| - left)
    ensures first == Some(i) ==> Scan(free, i, left, first) == None
    ensures first != Some(i) && free[i] ==> Scan(free, i, left, first) == Some(i)
    ensures first != Some(i) && !free[i] ==>
      Scan(free, i, left, first) == if left == 1 then None else Scan(free, Next(|free|, i), left - 1, first)
    ensures Next(|free|, i) == Ahead(|free|, start, |free| - left + 1)
    ensures Next(|free|, i) == start <==> left == 1
  {
  }

  /** Where a hunt starts: behind the interface in use, else where the mode says. */
  function StartAt(n: nat, mode: Mode, current: Option<nat>, cur: Option<nat>): (r: nat)
    requires n > 0
    requires (current.Some? ==> current.value < n) && (cur.Some? ==> cur.value < n)
    ensures r < n
  {
    if cur.Some? then Next(n, cur.value)
    else if mode.Cyclic? && current.Some? then Next(n, current.value)
    else 0
  }

  function Hunt(free: seq<bool>, start: nat, first: Option<nat>): (r: Option<nat>)
    requires start < |free|
    ensures r.Some? ==> r.value < |free| && free[r.value]
  {
    Scan(free, start, |free|, first)
  }

  // ---------------------------------------------------------------- one hunt

  /** How many members a walk from i may try: all `left`, or those before `first`. */
  function Reach(n: nat, i: nat, left: nat, first: Option<nat>): (r: nat)
    requires i < n
    ensures r <= left
  {
    if first.Some? && first.value < n && Distance(n, i, first.value) < left then Distance(n, i, first.value) else left
  }

  /** None of the first d members from i on is free. */
  predicate NoneFree(free: seq<bool>, i: nat, d: nat)
    requires i < |free| && d <= |free|
  {
    forall k :: 0 <= k < d ==> !free[Ahead(|free|, i, k)]
  }

  lemma NoneFreeFrom(free: seq<bool>, i: nat, d: nat)
    requires i < |free| && 0 < d <= |free| && !free[i] && NoneFree(free, Next(|free|, i), d - 1)
    ensures NoneFree(free, i, d)
  {
    var n, j := |free|, Next(|free|, i);
    forall k | 0 <= k < d ensures !free[Ahead(n, i, k)] {
      if k > 0 { assert Ahead(n, i, k) == Ahead(n, j, k - 1); }
    }
  }

  lemma DistanceNext(n: nat, i: nat, p: nat)
    requires i < n && p < n && p != i
    ensures Distance(n, i, p) == 1 + Distance(n, Next(n, i), p)
  {
  }

  lemma ReachNext(n: nat, i: nat, left: nat, first: Option<nat>)
    requires i < n && 0 < left <= n && first != Some(i)
    ensures Reach(n, i, left, first) == 1 + Reach(n, Next(n, i), left - 1, first)
  {
  }

  /** A walk finds the first free member within its reach, and fails only if there is none. */
  lemma {:induction false} ScanFindsFirst(free: seq<bool>, i: nat, left: nat, first: Option<nat>)
    requires i < |free| && left <= |free|
    ensures var n := |free|; var r := Scan(free, i, left, first); var reach := Reach(n, i, left, first);
      && (r.None? ==> NoneFree(free, i, reach))
      && (r.Some? ==> Distance(n, i, r.value) < reach && NoneFree(free, i, Distance(n, i, r.value)))
    decreases left
  {
    var n := |free|;
    if left > 0 && first != Some(i) && !free[i] {
      var j := Next(n, i);
      ScanFindsFirst(free, j, left - 1, first);
      var r := Scan(free, j, left - 1, first);
      ReachNext(n, i, left, first);
      if r.Some? { DistanceNext(n, i, r.value); }
      NoneFreeFrom(free, i, 1 + if r.Some? then Distance(n, j, r.value) else Reach(n, j, left - 1, first));
    }
  }

  /** Without a first interface: a hunt succeeds exactly when some member is free, with the first one in cyclic
      order from the start. */
  lemma HuntCorrect(free: seq<bool>, start: nat)
    requires start < |free|
    ensures Hunt(free, start, None).Some? <==> exists p :: 0 <= p < |free| && free[p]
    ensures Hunt(free, start, None).Some? ==>
      var p := Hunt(free, start, None).value;
      forall q :: 0 <= q < |free| && free[q] ==> Distance(|free|, start, p) <= Distance(|free|, start, q)
  {
    var n := |free|;
    ScanFindsFirst(free, start, n, None);
    var r := Hunt(free, start, None);
    forall q | 0 <= q < n && free[q] ensures r.Some? && Distance(n, start, r.value) <= Distance(n, start, q) {
      assert Ahead(n, start, Distance(n, start, q)) == q;
    }
  }

  // ---------------------------------------------------------------- free members in cyclic order

  function FreeFrom(free: seq<bool>, i: nat, left: nat): (r: seq<nat>)
    requires i < |free|
    ensures forall k :: 0 <= k < |r| ==> r[k] < |free| && free[r[k]]
    decreases left
  {
    if left == 0 then []
    else if free[i] then [i] + FreeFrom(free, Next(|free|, i), left - 1)
    else FreeFrom(free, Next(|free|, i), left - 1)
  }

  lemma {:induction false} FreeFromSplits(free: seq<bool>, i: nat, a: nat, b: nat)
    requires i < |free| && a <= |free|
    ensures FreeFrom(free, i, a + b) == FreeFrom(free, i, a) + FreeFrom(free, Ahead(|free|, i, a), b)
    decreases a
  {
    hide Ahead, Next;
    if a == 0 {
      StartOfRound(|free|, i);
    } else {
      AheadNext(|free|, i, a);
      FreeFromSplits(free, Next(|free|, i), a - 1, b);
    }
  }

  lemma {:induction false} FreeFromNone(free: seq<bool>, i: nat, d: nat)
    requires i < |free| && d <= |free|
    requires forall k :: 0 <= k < d ==> !free[Ahead(|free|, i, k)]
    ensures FreeFrom(free, i, d) == []
    decreases d
  {
    if d > 0 {
      var n, j := |free|, Next(|free|, i);
      assert Ahead(n, i, 0) == i;
      forall k | 0 <= k < d - 1 ensures !free[Ahead(n, j, k)] { assert Ahead(n, j, k) == Ahead(n, i, k + 1); }
      FreeFromNone(free, j, d - 1);
    }
  }

  /** The members met from i on are those within `left` places that are free, each once. */
  lemma {:induction false} FreeFromExact(free: seq<bool>, i: nat, left: nat, p: nat)
    requires i < |free| && left <= |free| && p < |free|
    ensures p in FreeFrom(free, i, left) <==> free[p] && Distance(|free|, i, p) < left
    ensures multiset(FreeFrom(free, i, left))[p] <= 1
    decreases left
  {
    if left > 0 {
      var n, j := |free|, Next(|free|, i);
      var rest := FreeFrom(free, j, left - 1);
      FreeFromExact(free, j, left - 1, p);
      assert multiset([i] + rest) == multiset{i} + multiset(rest);
      if p == i {
        assert Distance(n, j, i) == n - 1;
      } else {
        assert Distance(n, i, p) == Distance(n, j, p) + 1;
      }
    }
  }

  /** A walk stopped after the free member at distance d has met only that one. */
  lemma MetAtDistance(free: seq<bool>, i: nat, d: nat, more: nat)
    requires i < |free| && d < |free| && free[Ahead(|free|, i, d)]
    requires forall k :: 0 <= k < d ==> !free[Ahead(|free|, i, k)]
    ensures FreeFrom(free, i, d + 1) == [Ahead(|free|, i, d)]
    ensures FreeFrom(free, i, d + 1 + more)
         == [Ahead(|free|, i, d)] + FreeFrom(free, Next(|free|, Ahead(|free|, i, d)), more)
  {
    var n, p := |free|, Ahead(|free|, i, d);
    FreeFromNone(free, i, d);
    FreeFromSplits(free, i, d, 1 + more);
    assert FreeFrom(free, p, 1 + more) == [p] + FreeFrom(free, Next(n, p), more);
    MetOne(free, i, d);
  }

  lemma MetOne(free: seq<bool>, i: nat, d: nat)
    requires i < |free| && d < |free| && free[Ahead(|free|, i, d)] && FreeFrom(free, i, d) == []
    ensures FreeFrom(free, i, d + 1) == [Ahead(|free|, i, d)]
  {
    var n, p := |free|, Ahead(|free|, i, d);
    FreeFromSplits(free, i, d, 1);
    assert FreeFrom(free, p, 1) == [p] + FreeFrom(free, Next(n, p), 0);
  }

  // ---------------------------------------------------------------- cyclic hunts

  /** The results of k hunts in cyclic mode while the same members stay free. */
  function CyclicHunts(free: seq<bool>, start: nat, k: nat): (r: seq<Option<nat>>)
    requires start < |free|
    ensures |r| == k
    ensures forall i :: 0 <= i < k && r[i].Some? ==> r[i].value < |free| && free[r[i].value]
    decreases k
  {
    if k == 0 then []
    else
      var r := Hunt(free, start, None);
      [r] + CyclicHunts(free, if r.Some? then Next(|free|, r.value) else start, k - 1)
  }

  lemma NextIs(n: nat, i: nat)
    requires i < n
    ensures Next(n, i) == (i + 1) % n
  {
  }

  /** The member that was found last. */
  function LastFound(hunts: seq<Option<nat>>): (r: Option<nat>)
  {
    if hunts == [] then None
    else if hunts[|hunts| - 1].Some? then hunts[|hunts| - 1]
    else LastFound(hunts[..|hunts| - 1])
  }

  lemma LastOfOneMore(hunts: seq<Option<nat>>, r: Option<nat>)
    ensures LastFound(hunts + [r]) == if r.Some? then r else LastFound(hunts)
  {
    assert (hunts + [r])[..|hunts|] == hunts;
  }

  lemma {:induction false} LastOfMore(first: Option<nat>, rest: seq<Option<nat>>)
    ensures LastFound([first] + rest) == if LastFound(rest).Some? then LastFound(rest) else first
    decreases |rest|
  {
    var all := [first] + rest;
    if rest == [] {
      assert all[..0] == [];
    } else {
      assert all[..|all| - 1] == [first] + rest[..|rest| - 1];
      LastOfMore(first, rest[..|rest| - 1]);
    }
  }

  /** Where the hunt behind these starts. */
  function StartAfter(n: nat, start: nat, last: Option<nat>): (r: nat)
    requires start < n && (last.Some? ==> last.value < n)
    ensures r < n
  {
    if last.Some? then Next(n, last.value) else start
  }

  /** One more hunt in cyclic mode starts behind the member that was found last, if there was one. */
  lemma {:induction false} OneHuntMore(free: seq<bool>, start: nat, last: Option<nat>, k: nat)
    requires start < |free| && (last.Some? ==> last.value < |free|)
    requires last == LastFound(CyclicHunts(free, start, k))
    ensures CyclicHunts(free, start, k + 1)
         == CyclicHunts(free, start, k) + [Hunt(free, StartAfter(|free|, start, last), None)]
    decreases k
  {
    hide Hunt, LastFound, Next;
    var r := Hunt(free, start, None);
    if k == 0 {
      NoHunts();
      assert CyclicHunts(free, start, 1) == [r] + [];
    } else {
      var next := StartAfter(|free|, start, r);
      var rest := CyclicHunts(free, next, k - 1);
      LastOfMore(r, rest);
      if r.None? { NothingFound(free, start, k); NothingFound(free, start, k - 1); }
      FoundInside(free, next, k - 1);
      OneHuntMore(free, next, LastFound(rest), k - 1);
      assert CyclicHunts(free, start, k + 1) == [r] + CyclicHunts(free, next, k);
      assert CyclicHunts(free, start, k) == [r] + rest;
    }
  }

  lemma NoHunts()
    ensures LastFound([]) == None
  {
  }

  lemma {:induction false} FoundInside(free: seq<bool>, start: nat, k: nat)
    requires start < |free|
    ensures var r := LastFound(CyclicHunts(free, start, k)); r.Some? ==> r.value < |free|
  {
    AllInside(CyclicHunts(free, start, k), |free|);
  }

  lemma {:induction false} AllInside(hunts: seq<Option<nat>>, n: nat)
    requires forall i :: 0 <= i < |hunts| && hunts[i].Some? ==> hunts[i].value < n
    ensures LastFound(hunts).Some? ==> LastFound(hunts).value < n
    decreases |hunts|
  {
    if hunts != [] { AllInside(hunts[..|hunts| - 1], n); }
  }

  lemma {:induction false} NothingFound(free: seq<bool>, start: nat, k: nat)
    requires start < |free| && Hunt(free, start, None).None?
    ensures LastFound(CyclicHunts(free, start, k)).None?
    decreases k
  {
    if k > 0 {
      NothingFound(free, start, k - 1);
      LastOfMore(None, CyclicHunts(free, start, k - 1));
    }
  }

  /** A hunt takes the first of the free members in cyclic order; for the next hunt it comes last. */
  lemma HuntRotates(free: seq<bool>, start: nat)
    requires start < |free| && FreeFrom(free, start, |free|) != []
    ensures var l := FreeFrom(free, start, |free|);
      && Hunt(free, start, None) == Some(l[0])
      && FreeFrom(free, Next(|free|, l[0]), |free|) == l[1..] + [l[0]]
  {
    var n := |free|;
    ScanFindsFirst(free, start, n, None);
    var r := Hunt(free, start, None);
    if r.None? { FreeFromNone(free, start, n); }
    var p := r.value;
    var d := Distance(n, start, p);
    MetAtDistance(free, start, d, n - d - 1);
    FreeFromSplits(free, Next(n, p), n - d - 1, d + 1);
    assert Ahead(n, Next(n, p), n - d - 1) == start;
  }

  /** Up to one round, the hunts take the free members in cyclic order. */
  lemma {:induction false} OneRound(free: seq<bool>, start: nat, k: nat, i: nat)
    requires start < |free| && i < k <= |FreeFrom(free, start, |free|)|
    ensures CyclicHunts(free, start, k)[i] == Some(FreeFrom(free, start, |free|)[i])
    decreases k
  {
    var l := FreeFrom(free, start, |free|);
    HuntRotates(free, start);
    if i > 0 { OneRound(free, Next(|free|, l[0]), k - 1, i - 1); }
  }

  /** Of the hunts lo to hi - 1, just number i returned p. */
  ghost predicate OnlyAt(hunts: seq<Option<nat>>, lo: nat, hi: nat, p: nat, i: nat)
  {
    lo <= i < hi <= |hunts| && forall j :: lo <= j < hi ==> (hunts[j] == Some(p) <==> j == i)
  }

  ghost predicate ReturnedOnce(hunts: seq<Option<nat>>, lo: nat, hi: nat, p: nat)
  {
    exists i :: OnlyAt(hunts, lo, hi, p, i)
  }

  /** From any start, as many hunts as there are free members return each of them exactly once. */
  lemma RoundIsFair(free: seq<bool>, start: nat, p: nat)
    requires start < |free| && p < |free| && free[p]
    ensures var a := |FreeFrom(free, start, |free|)|; var hunts := CyclicHunts(free, start, a);
      ReturnedOnce(hunts, 0, a, p)
  {
    var l := FreeFrom(free, start, |free|);
    FreeFromExact(free, start, |free|, p);
    var i :| 0 <= i < |l| && l[i] == p;
    forall j | 0 <= j < |l| ensures CyclicHunts(free, start, |l|)[j] == Some(p) <==> j == i {
      OneRound(free, start, |l|, j);
      if j != i && l[j] == p { Twice(l, j, i); }
    }
    assert OnlyAt(CyclicHunts(free, start, |l|), 0, |l|, p, i);
  }

  lemma Twice(l: seq<nat>, i: nat, j: nat)
    requires i < |l| && j < |l| && i != j && l[i] == l[j]
    ensures multiset(l)[l[i]] >= 2
  {
    var lo, hi := if i < j then i else j, if i < j then j else i;
    assert l == l[..lo] + [l[lo]] + l[lo + 1..hi] + [l[hi]] + l[hi + 1..];
  }

  /** How many members are free does not depend on where the walk starts. */
  lemma SameCount(free: seq<bool>, start: nat)
    requires start < |free| && FreeFrom(free, start, |free|) != []
    ensures |FreeFrom(free, Next(|free|, FreeFrom(free, start, |free|)[0]), |free|)| == |FreeFrom(free, start, |free|)|
  {
    HuntRotates(free, start);
  }

  /** Later hunts are the hunts from another start. */
  lemma {:induction false} LaterHunts(free: seq<bool>, start: nat, m: nat, k: nat) returns (later: nat)
    requires start < |free| && FreeFrom(free, start, |free|) != []
    ensures later < |free| && |FreeFrom(free, later, |free|)| == |FreeFrom(free, start, |free|)|
    ensures forall j :: 0 <= j < k ==> CyclicHunts(free, start, m + k)[m + j] == CyclicHunts(free, later, k)[j]
    decreases m
  {
    if m == 0 {
      later := start;
    } else {
      HuntRotates(free, start);
      SameCount(free, start);
      var next := Next(|free|, FreeFrom(free, start, |free|)[0]);
      later := LaterHunts(free, next, m - 1, k);
      assert CyclicHunts(free, start, m + k)[1..] == CyclicHunts(free, next, m - 1 + k);
    }
  }

  /** While the same members stay free, any as many consecutive hunts as there are free members return each of
      them exactly once. */
  lemma HuntsAreFair(free: seq<bool>, start: nat, m: nat, p: nat)
    requires start < |free| && p < |free| && free[p]
    ensures var a := |FreeFrom(free, start, |free|)|; var hunts := CyclicHunts(free, start, m + a);
      ReturnedOnce(hunts, m, m + a, p)
  {
    FreeFromExact(free, start, |free|, p);
    var a := |FreeFrom(free, start, |free|)|;
    var hunts := CyclicHunts(free, start, m + a);
    var later := LaterHunts(free, start, m, a);
    RoundIsFair(free, later, p);
    var round := CyclicHunts(free, later, a);
    var i: nat :| OnlyAt(round, 0, a, p, i);
    forall j | m <= j < m + a ensures hunts[j] == Some(p) <==> j == m + i {
      assert hunts[m + (j - m)] == round[j - m];
    }
    assert OnlyAt(hunts, m, m + a, p, m + i);
  }

  // ---------------------------------------------------------------- hunting on after failed calls

  /** The members tried after `last`, one for each state of the group, until a hunt fails; f was tried first. */
  function Tried(frees: seq<seq<bool>>, n: nat, f: nat, last: nat): (r: seq<nat>)
    requires f < n && last < n && forall k :: 0 <= k < |frees| ==> |frees[k]| == n
    ensures |r| <= |frees| && forall k :: 0 <= k < |r| ==> r[k] < n
    decreases |frees|
  {
    if frees == [] then []
    else
      match Hunt(frees[0], Next(n, last), Some(f))
      case None => []
      case Some(p) => [p] + Tried(frees[1..], n, f, p)
  }

  /** What a hunt behind `last` returns lies strictly further round from f, with no free member passed over; if it
      returns nothing there was none before f. */
  lemma HuntAdvances(free: seq<bool>, f: nat, last: nat)
    requires f < |free| && last < |free|
    ensures var n := |free|; var r := Hunt(free, Next(n, last), Some(f)); var from := Distance(n, f, last);
      && (r.Some? ==> from < Distance(n, f, r.value))
      && (r.Some? ==> forall k :: from < k < Distance(n, f, r.value) ==> !free[Ahead(n, f, k)])
      && (r.None? ==> forall k :: from < k < n ==> !free[Ahead(n, f, k)])
  {
    var n := |free|;
    var i, from := Next(n, last), Distance(n, f, last);
    ScanFindsFirst(free, i, n, Some(f));
    assert Distance(n, i, f) == n - 1 - from;
    assert forall k :: from < k < n ==> Ahead(n, f, k) == Ahead(n, i, k - from - 1);
    var r := Hunt(free, i, Some(f));
    if r.Some? {
      assert Distance(n, f, r.value) == Distance(n, i, r.value) + from + 1;
    }
  }

  /** Whatever becomes free or busy between the calls, the members tried advance strictly round from f and never
      reach f again: of n members at most n are tried, each once. */
  lemma {:induction false} TriedAdvance(frees: seq<seq<bool>>, n: nat, f: nat, last: nat)
    requires f < n && last < n && forall k :: 0 <= k < |frees| ==> |frees[k]| == n
    ensures var r := Tried(frees, n, f, last);
      && (forall k :: 0 <= k < |r| ==> Distance(n, f, last) < Distance(n, f, r[k]) && r[k] != f)
      && (forall j, k :: 0 <= j < k < |r| ==> Distance(n, f, r[j]) < Distance(n, f, r[k]))
      && |r| < n - Distance(n, f, last)
    decreases |frees|
  {
    if frees != [] {
      HuntAdvances(frees[0], f, last);
      var p := Hunt(frees[0], Next(n, last), Some(f));
      if p.Some? { TriedAdvance(frees[1..], n, f, p.value); }
    }
  }

  lemma {:induction false} TriedFrom(free: seq<bool>, k: nat, f: nat, last: nat)
    requires f < |free| && last < |free| && k >= |free| - Distance(|free|, f, last)
    ensures Tried(seq(k, _ => free), |free|, f, last)
         == FreeFrom(free, Next(|free|, last), |free| - 1 - Distance(|free|, f, last))
    decreases |free| - Distance(|free|, f, last)
  {
    var n := |free|;
    var i, from := Next(n, last), Distance(n, f, last);
    var frees := seq(k, _ => free);
    assert frees[1..] == seq(k - 1, _ => free);
    HuntAdvances(free, f, last);
    assert forall j :: from < j < n ==> Ahead(n, f, j) == Ahead(n, i, j - from - 1);
    var r := Hunt(free, i, Some(f));
    if r.None? {
      forall j | 0 <= j < n - 1 - from ensures !free[Ahead(n, i, j)] {
        assert Ahead(n, f, j + from + 1) == Ahead(n, i, j);
      }
      FreeFromNone(free, i, n - 1 - from);
    } else {
      var p := r.value;
      var d := Distance(n, f, p) - from - 1;
      assert Ahead(n, i, d) == p;
      forall j | 0 <= j < d ensures !free[Ahead(n, i, j)] { assert Ahead(n, f, j + from + 1) == Ahead(n, i, j); }
      MetAtDistance(free, i, d, n - 1 - Distance(n, f, p));
      TriedFrom(free, k - 1, f, p);
    }
  }

  /** With the same members free throughout, the hunts after f try every other free member, in cyclic order. */
  lemma TriedIsAllFree(free: seq<bool>, k: nat, f: nat)
    requires f < |free| <= k
    ensures Tried(seq(k, _ => free), |free|, f, f) == FreeFrom(free, Next(|free|, f), |free| - 1)
  {
    TriedFrom(free, k, f, f);
  }
}
