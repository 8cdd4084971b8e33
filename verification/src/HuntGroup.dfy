/** chan_visdn/huntgroup.c and its client in chan_visdn.c as they run: hunting, and hunting on after a failed call. */
module HuntGroup {
  import opened Text
  import opened Hunting

  class Interface {
    const name: string
    var channels: Option<seq<bool>>   // per channel whether it is available; None without a Q.931 interface

    constructor (name: string, channels: Option<seq<bool>>)
      ensures this.name == name && this.channels == channels
    {
      this.name, this.channels := name, channels;
    }

    predicate Available()
      reads this
    {
      channels.Some? && true in channels.value
    }

    method HasChannel() returns (r: bool)
      ensures r == Available()
    {
      if channels.None? { return false; }
      var i := 0;
      while i < |channels.value|
        invariant i <= |channels.value| && true !in channels.value[..i]
      {
        if channels.value[i] { return true; }
        i := i + 1;
      }
      return false;
    }
  }

  function LowerChar(c: char): char
  {
    if 'A' <= c <= 'Z' then (c as int + 32) as char else c
  }

  /** Names are compared by strcasecmp(). */
  function Lower(s: string): string
  {
    if s == "" then "" else [LowerChar(s[0])] + Lower(s[1..])
  }

  class HuntGroup {
    const members: seq<Interface>
    const mode: Mode
    var current: Option<nat>          // the position of the member last returned

    /** No interface is a member twice. */
    ghost predicate Valid()
      reads this
    {
      && (forall i, j :: 0 <= i < j < |members| ==> Lower(members[i].name) != Lower(members[j].name))
      && (current.Some? ==> current.value < |members|)
    }

    constructor (members: seq<Interface>, mode: Mode)
      requires forall i, j :: 0 <= i < j < |members| ==> Lower(members[i].name) != Lower(members[j].name)
      ensures Valid() && this.members == members && this.mode == mode && current.None?
    {
      this.members, this.mode, current := members, mode, None;
    }

    ghost function Free(): (r: seq<bool>)
      reads members
      ensures |r| == |members| && forall i :: 0 <= i < |r| ==> r[i] == members[i].Available()
    {
      seq(|members|, i requires 0 <= i < |members| reads members => members[i].Available())
    }

    /** Where interface x is in the group. */
    ghost function Position(x: Interface?): (r: Option<nat>)
      ensures r.Some? ==> r.value < |members| && members[r.value] == x
      ensures r.None? ==> x !in members
    {
      if x in members then
        var i: nat :| i < |members| && members[i] == x;
        Some(i)
      else None
    }

    lemma OnePosition(i: nat)
      requires Valid() && i < |members|
      ensures Position(members[i]) == Some(i)
    {
    }

    /** visdn_hg_find_member(). */
    method FindMember(name: string) returns (r: Option<nat>)
      ensures r.Some? ==> r.value < |members| && Lower(members[r.value].name) == Lower(name)
      ensures r.None? ==> forall i :: 0 <= i < |members| ==> Lower(members[i].name) != Lower(name)
    {
      var i := 0;
      while i < |members|
        invariant i <= |members|
        invariant forall j :: 0 <= j < i ==> Lower(members[j].name) != Lower(name)
      {
        if Lower(members[i].name) == Lower(name) { return Some(i); }
        i := i + 1;
      }
      return None;
    }

    /** visdn_hg_next_member(). */
    method NextMember(i: nat) returns (r: nat)
      requires i < |members|
      ensures r == Next(|members|, i)
    {
      if i == |members| - 1 { r := 0; } else { r := i + 1; }
    }

    method StartingMember(cur: Interface?) returns (start: nat)
      requires Valid() && members != [] && (cur != null ==> cur in members)
      ensures start == StartAt(|members|, mode, current, Position(cur)) < |members|
    {
      if cur != null {
        var at := FindMember(cur.name);
        OnePosition(at.value);
        start := NextMember(at.value);
        return;
      }
      start := 0;
      match mode {
        case Cyclic => if current.Some? { start := NextMember(current.value); }
        case Sequential =>
      }
    }

    /** What visdn_hg_hunt() finds, as a position. */
    ghost function Found(cur: Interface?, first: Interface?): Option<nat>
      requires Valid()
      reads this, members
    {
      if members == [] then None
      else Hunt(Free(), StartAt(|members|, mode, current, Position(cur)), Position(first))
    }

    /** visdn_hg_hunt(). */
    method HuntInterface(cur: Interface?, first: Interface?) returns (r: Interface?)
      requires Valid() && (cur != null ==> cur in members)
      modifies `current
      ensures Valid()
      ensures var p := old(Found(cur, first));
        && r == (if p.Some? then members[p.value] else null)
        && current == (if p.Some? then p else old(current))
    {
      if |members| == 0 { return null; }
      var start := StartingMember(cur);
      var p := TryMembers(start, first);
      if p.None? { return null; }
      current := p;
      r := members[p.value];
    }

    /** A hunt that does not go on from an interface starts behind the member last returned if the mode is cyclic, and
        at the first member if it is sequential. */
    lemma FoundAfresh()
      requires Valid() && members != []
      ensures mode.Cyclic? && current.Some? ==>
        Found(null, null) == Hunt(Free(), (current.value + 1) % |members|, None)
      ensures mode.Sequential? || current.None? ==> Found(null, null) == Hunt(Free(), 0, None)
    {
      hide Hunt, Next;
      if current.Some? { NextIs(|members|, current.value); }
    }

    /** In sequential mode every such hunt returns the first member that is available, whatever was returned before. */
    method HuntSequential() returns (r: Interface?)
      requires Valid() && mode.Sequential?
      modifies `current
      ensures Valid()
      ensures r == null <==> forall i :: 0 <= i < |members| ==> !members[i].Available()
      ensures r != null ==> exists p :: 0 <= p < |members| && r == members[p] && members[p].Available()
                                        && forall i :: 0 <= i < p ==> !members[i].Available()
    {
      ghost var free, p := Free(), Found(null, null);
      if members != [] {
        FoundAfresh();
        HuntCorrect(free, 0);
        assert forall i :: 0 <= i < |members| ==> Distance(|members|, 0, i) == i;
      }
      r := HuntInterface(null, null);
      if p.None? {
        forall i | 0 <= i < |members| ensures !members[i].Available() { assert free[i] == members[i].Available(); }
      } else {
        assert members[p.value].Available();
        forall i | 0 <= i < p.value ensures !members[i].Available() { assert free[i] == members[i].Available(); }
      }
    }

    /** In cyclic mode k such hunts one after the other are those of CyclicHunts, which are fair. */
    method HuntCyclic(k: nat) returns (rs: seq<Interface?>, ghost ps: seq<Option<nat>>)
      requires Valid() && mode.Cyclic? && members != []
      modifies `current
      ensures Valid() && |rs| == |ps| == k
      ensures ps == CyclicHunts(Free(), if old(current).Some? then (old(current).value + 1) % |members| else 0, k)
      ensures forall i :: 0 <= i < k ==> rs[i] == (if ps[i].Some? then members[ps[i].value] else null)
    {
      hide Hunt, Next, CyclicHunts, LastFound, Found;
      NoHunts();
      ghost var free, was := Free(), current;
      ghost var start := if was.Some? then (was.value + 1) % |members| else 0;
      rs, ps := [], [];
      while |rs| < k
        invariant Valid() && |rs| == |ps| <= k && Free() == free
        invariant ps == CyclicHunts(free, start, |ps|)
        invariant current == if LastFound(ps).Some? then LastFound(ps) else was
        invariant forall i :: 0 <= i < |rs| ==> rs[i] == (if ps[i].Some? then members[ps[i].value] else null)
        decreases k - |rs|
      {
        ghost var last, p := LastFound(ps), Found(null, null);
        FoundAfresh();
        FoundInside(free, start, |ps|);
        OneHuntMore(free, start, last, |ps|);
        LastOfOneMore(ps, p);
        if last.Some? { NextIs(|members|, last.value); }
        var r := HuntInterface(null, null);
        rs, ps := rs + [r], ps + [p];
      }
    }

    /** The loop round the list, from `start` back to it. */
    method TryMembers(start: nat, first: Interface?) returns (r: Option<nat>)
      requires Valid() && start < |members|
      ensures r == Hunt(Free(), start, Position(first))
    {
      hide Scan, Ahead, Next;
      ghost var n, free, stop := |members|, Free(), Position(first);
      assert start == Ahead(n, start, 0) by { StartOfRound(n, start); }
      var hgm := start;
      ghost var left := n;
      while true
        invariant hgm < n && 0 < left <= n && hgm == Ahead(n, start, n - left)
        invariant Hunt(free, start, stop) == Scan(free, hgm, left, stop)
        decreases left
      {
        OnePosition(hgm);
        ScanTurn(free, start, hgm, left, stop);
        assert members[hgm] == first <==> stop == Some(hgm);
        if members[hgm] == first { return None; }
        var has := members[hgm].HasChannel();
        if has { return Some(hgm); }
        hgm := NextMember(hgm);
        left := left - 1;
        if hgm == start { return None; }
      }
    }
  }

  datatype Cause =
    | NoCircuitChannelAvailable | NetworkOutOfOrder | TemporaryFailure | SwitchingEquipmentCongestion
    | AccessInformationDiscarded | RequestedCircuitChannelNotAvailable | ResourcesUnavailable | OtherCause

  /** An outgoing call over a hunt group: its first interface, the one in use, and all that were tried. */
  class GroupCall {
    const group: HuntGroup
    var first: Interface?
    var last: Interface?
    ghost var tried: seq<nat>

    /** Each interface tried lies strictly further round from the first one than those before. */
    ghost predicate Valid()
      reads this, group
    {
      && group.Valid()
      && (forall k :: 0 <= k < |tried| ==> tried[k] < |group.members|)
      && (first == null <==> tried == []) && (last == null <==> tried == [])
      && (tried != [] ==> first == group.members[tried[0]] && last == group.members[tried[|tried| - 1]])
      && (forall j, k :: 0 <= j < k < |tried| ==> Round(tried[j]) < Round(tried[k]))
    }

    ghost function Round(p: nat): nat
      requires tried != [] && tried[0] < |group.members|
      reads this
    {
      if p < |group.members| then Distance(|group.members|, tried[0], p) else 0
    }

    /** At most as many attempts as members, no interface twice. */
    lemma AttemptsBounded()
      requires Valid()
      ensures |tried| <= |group.members|
      ensures forall j, k :: 0 <= j < k < |tried| ==> tried[j] != tried[k]
    {
      if tried != [] { RoundsGrow(|tried| - 1); }
    }

    lemma {:induction false} RoundsGrow(k: nat)
      requires Valid() && k < |tried|
      ensures Round(tried[k]) >= k
      decreases k
    {
      if k > 0 { RoundsGrow(k - 1); }
    }

    constructor (group: HuntGroup)
      requires group.Valid()
      ensures Valid() && this.group == group && tried == []
    {
      this.group, first, last := group, null, null;
      tried := [];
    }

    /** The first hunt, as the call is set up. */
    method Begin() returns (r: Interface?)
      requires Valid() && tried == []
      modifies this, group`current
      ensures Valid() && r == last && |tried| <= 1
      ensures r != null <==> exists p :: 0 <= p < |group.members| && old(group.members[p].Available())
    {
      r := group.HuntInterface(null, null);
      ghost var p := old(group.Found(null, null));
      if group.members != [] {
        HuntCorrect(old(group.Free()), old(StartAt(|group.members|, group.mode, group.current, None)));
      }
      first, last := r, r;
      if p.Some? { tried := [p.value]; }
    }

    /** A member more than `from` places round from the first interface is available. */
    ghost predicate FreeBeyond(from: nat)
      requires tried != [] && tried[0] < |group.members|
      reads this, group.members
    {
      exists k :: from < k < |group.members| && group.members[Ahead(|group.members|, tried[0], k)].Available()
    }

    lemma FoundFurther(at: nat)
      requires Valid() && tried != [] && at == tried[|tried| - 1]
      ensures var p := group.Found(last, first);
        && (p.Some? ==> Round(at) < Round(p.value))
        && (p.Some? <==> FreeBeyond(Round(at)))
    {
      var n, f := |group.members|, tried[0];
      group.OnePosition(f);
      group.OnePosition(at);
      HuntAdvances(group.Free(), f, at);
      var p := group.Found(last, first);
      if p.Some? { assert Ahead(n, f, Round(p.value)) == p.value; }
    }

    predicate HuntsOn(cause: Option<Cause>)
    {
      cause.Some? &&
      (cause.value == NoCircuitChannelAvailable || cause.value == NetworkOutOfOrder || cause.value == TemporaryFailure
       || cause.value == SwitchingEquipmentCongestion || cause.value == AccessInformationDiscarded
       || cause.value == RequestedCircuitChannelNotAvailable || cause.value == ResourcesUnavailable)
    }

    /** visdn_hunt_next_or_hangup(): the next interface, or null to hang up. */
    method NextOrHangup(cause: Option<Cause>) returns (r: Interface?)
      requires Valid() && tried != []
      modifies this, group`current
      ensures Valid()
      ensures r == null ==> tried == old(tried) && last == old(last)
      ensures r != null ==> |tried| == old(|tried|) + 1 && tried[..|tried| - 1] == old(tried) && last == r
      ensures r != null <==>
        cause.Some? && cause.value != OtherCause && old(FreeBeyond(Round(tried[|tried| - 1])))
    {
      if !HuntsOn(cause) { return null; }
      FoundFurther(tried[|tried| - 1]);
      ghost var p := group.Found(last, first);
      r := group.HuntInterface(last, first);
      if r != null { Try(r, p.value); }
    }

    /** The next attempt goes to interface r, member p. */
    method Try(r: Interface, ghost p: nat)
      requires Valid() && tried != [] && p < |group.members| && r == group.members[p]
      requires Round(tried[|tried| - 1]) < Round(p)
      modifies this
      ensures Valid() && last == r && tried == old(tried) + [p]
    {
      last := r;
      tried := tried + [p];
    }
  }
}
