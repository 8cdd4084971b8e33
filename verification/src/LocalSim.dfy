/**
 The local SIM of chan_vgsm/mesim_local.c while its answer to reset comes in: bytes for the SIM are held back
 until the answer is complete.
 */
module LocalSim {
  import opened SimAtr
  import opened Text

  const BUFFER := 64
  const ENOMEM := 12
  const NUL := FromOctet(0)

  /** TS of the direct convention. */
  const DIRECT_CONVENTION := FromOctet(0x3b)

  /** The states of an opened SIM holder. */
  datatype State = HolderRemoved | Reset | ReadingAtr | Ready | Failed

  /** Past those of TAi, TBi and TCi that are there, unless the bytes end before. */
  method SkipAnnounced(from: nat, len: nat, presence: Flags) returns (pos: nat, ok: bool)
    requires from <= len
    ensures ok <==> from + Announced(presence) <= len
    ensures ok ==> pos == from + Announced(presence)
  {
    pos := from;
    if presence.ta {
      if len < pos + 1 { return pos, false; }
      pos := pos + 1;
    }
    if presence.tb {
      if len < pos + 1 { return pos, false; }
      pos := pos + 1;
    }
    if presence.tc {
      if len < pos + 1 { return pos, false; }
      pos := pos + 1;
    }
    return pos, true;
  }

  /** Up to the end of the interface characters behind t0; not ok when the bytes a end before. */
  method SkipBlocks(atr: array<Byte>, len: nat, t0: Byte, ghost a: seq<Byte>) returns (pos: nat, tck: bool, ok: bool)
    requires 2 <= len <= atr.Length && a == atr[..len]
    ensures Walk(a, 2, t0.high) == if ok then Some(Walked(pos, tck)) else None
  {
    var presence := t0.high;
    pos, tck, ok := 2, false, true;
    while true
      invariant 2 <= pos <= len
      invariant Walk(a, 2, t0.high) == WithTck(Walk(a, pos, presence), tck)
      decreases len - pos
    {
      pos, ok := SkipAnnounced(pos, len, presence);
      if !ok { return; }
      if !presence.td { return; }
      if len < pos + 1 { return pos, tck, false; }
      presence := atr[pos].high;
      tck := tck || atr[pos].low != 0;
      pos := pos + 1;
    }
  }

  /** vgsm_sim_atr_is_complete() on the first len bytes of a buffer. */
  method IsComplete(atr: array<Byte>, len: nat) returns (r: bool)
    requires len <= atr.Length
    ensures r == Complete(atr[..len])
  {
    if len < 2 { return false; }
    var t0 := atr[1];
    var pos, tckNeeded, ok := SkipBlocks(atr, len, t0, atr[..len]);
    if !ok { return false; }
    if len < pos + t0.low { return false; }
    pos := pos + t0.low;
    return !tckNeeded || len >= pos + 1;
  }

  /** The walk over a complete answer, which no longer looks at its length: the interface characters it logs all lie
      in the bytes received. */
  method LogInterface(atr: array<Byte>, ghost a: seq<Byte>) returns (log: seq<Byte>)
    requires |a| <= atr.Length && a == atr[..|a|] && Complete(a)
    ensures Walk(a, 2, a[1].high).Some? && log == a[2..Walk(a, 2, a[1].high).value.pos]
  {
    var pos: nat := 2;
    log := [];
    var presence := atr[1].high;
    while true
      invariant 2 <= pos <= |a| && log == atr[2..pos] && Walk(a, pos, presence).Some?
      invariant Walk(a, pos, presence).value.pos == Walk(a, 2, a[1].high).value.pos
      decreases |a| - pos
    {
      pos, log := LogAnnounced(atr, pos, presence, log);
      if !presence.td { break; }
      presence := atr[pos].high;
      pos, log := LogNext(atr, pos, log);
    }
    assert forall k :: 2 <= k < pos ==> a[k] == atr[k];
    assert atr[2..pos] == a[2..pos];
  }

  method LogNext(atr: array<Byte>, from: nat, before: seq<Byte>) returns (pos: nat, log: seq<Byte>)
    requires 2 <= from < atr.Length && before == atr[2..from]
    ensures pos == from + 1 && log == atr[2..pos]
  {
    pos, log := from + 1, before + [atr[from]];
  }

  method LogAnnounced(atr: array<Byte>, from: nat, presence: Flags, before: seq<Byte>)
    returns (pos: nat, log: seq<Byte>)
    requires 2 <= from && from + Announced(presence) <= atr.Length && before == atr[2..from]
    ensures pos == from + Announced(presence) && log == atr[2..pos]
  {
    pos, log := from, before;
    if presence.ta {
      pos, log := LogNext(atr, pos, log);
    }
    if presence.tb {
      pos, log := LogNext(atr, pos, log);
    }
    if presence.tc {
      pos, log := LogNext(atr, pos, log);
    }
  }

  /** struct vgsm_mesim_local; what is said about bytes sent is said from the last time the reset was removed. */
  class Sim {
    var state: State
    const outBuf: array<Byte>
    var outLen: nat
    const atrBuf: array<Byte>
    var atrLen: nat
    var written: seq<Byte>           // what the device was given
    ghost var accepted: seq<Byte>    // what callers were told is sent, while reading the answer or ready
    ghost var flushed: bool          // no write of held bytes has failed

    /** Nothing accepted is lost or duplicated: it is held back or written, each in order.  What is held was accepted
        first, and unless its write failed it is written before anything else. */
    ghost predicate Valid()
      reads this, outBuf
    {
      && outBuf.Length == BUFFER && atrBuf.Length == BUFFER && outBuf != atrBuf
      && outLen <= BUFFER && atrLen <= BUFFER
      && accepted == outBuf[..outLen] + written
      && (state == ReadingAtr ==> written == [] && flushed)
      && (state == Ready && flushed ==> outLen == 0 && written == accepted)
    }

    /** A card is in its holder, and held in reset. */
    constructor ()
      ensures Valid() && fresh(outBuf) && fresh(atrBuf)
      ensures state == Reset && atrLen == 0 && accepted == [] && written == []
    {
      state, outLen, atrLen := Reset, 0, 0;
      outBuf := new Byte[BUFFER](_ => NUL);
      atrBuf := new Byte[BUFFER](_ => NUL);
      written, accepted, flushed := [], [], true;
    }

    /** vgsm_mesim_local_reset_removed(): whatever was held is dropped and an answer awaited. */
    method ResetRemoved()
      requires Valid() && state != Ready
      modifies this, outBuf, atrBuf
      ensures Valid() && state == ReadingAtr && atrLen == 0 && outLen == 0 && accepted == [] && written == []
    {
      atrLen := 0;
      forall k | 0 <= k < BUFFER { atrBuf[k] := NUL; }
      outLen := 0;
      forall k | 0 <= k < BUFFER { outBuf[k] := NUL; }
      state, written, accepted, flushed := ReadingAtr, [], [], true;
    }

    /** vgsm_mesim_local_reset_asserted(). */
    method ResetAsserted()
      requires Valid()
      modifies `state
      ensures Valid() && state == if old(state) == Ready || old(state) == ReadingAtr then Reset else old(state)
    {
      if state == Ready || state == ReadingAtr { state := Reset; }
    }

    /** vgsm_mesim_local_holder_removed(). */
    method TakeHolder()
      requires Valid() && state != HolderRemoved
      modifies `state
      ensures Valid() && state == HolderRemoved
    {
      state := HolderRemoved;
    }

    /** vgsm_mesim_local_holder_inserted(). */
    method InsertHolder()
      requires Valid() && state == HolderRemoved
      modifies `state
      ensures Valid() && state == Reset
    {
      state := Reset;
    }

    /** The timer of vgsm_mesim_local_timer_fired() while the answer is awaited. */
    method AnswerMissing()
      requires Valid() && state == ReadingAtr
      modifies `state
      ensures Valid() && state == Failed
    {
      state := Failed;
    }

    /** vgsm_mesim_local_write(): `device` is 0 for a write that works, or what one that fails returns, having
        written nothing. */
    method Write(data: seq<Byte>, device: int) returns (err: int)
      requires device <= 0
      modifies `written
      ensures err == device && written == old(written) + if err >= 0 then data else []
    {
      if device < 0 { return device; }
      written := written + data;
      return device;
    }

    /** Behind the bytes already held. */
    method Hold(data: seq<Byte>)
      requires outBuf.Length == BUFFER && outLen + |data| <= BUFFER
      modifies outBuf, `outLen
      ensures outLen == old(outLen) + |data| && outBuf[..outLen] == old(outBuf[..outLen]) + data
    {
      ghost var held := outBuf[..outLen];
      var k := 0;
      while k < |data|
        modifies outBuf
        invariant k <= |data| && outBuf[..outLen + k] == held + data[..k]
      {
        outBuf[outLen + k] := data[k];
        assert data[..k + 1] == data[..k] + [data[k]];
        assert outBuf[..outLen + k + 1] == outBuf[..outLen + k] + [data[k]];
        k := k + 1;
      }
      outLen := outLen + |data|;
      assert outBuf[..outLen] == held + data;
    }

    /** vgsm_mesim_local_send(): bytes for a SIM that is neither reading its answer nor ready are dropped, and the
        caller is told that they are sent. */
    method Send(data: seq<Byte>, device: int) returns (err: int)
      requires Valid() && device <= 0
      modifies this, outBuf
      ensures Valid() && state == old(state) && atrLen == old(atrLen) && flushed == old(flushed)
      ensures err == (if state == ReadingAtr && old(outLen) + |data| > BUFFER then -ENOMEM
                      else if state == Ready then device else 0)
      ensures accepted == old(accepted) + if err == 0 && (state == ReadingAtr || state == Ready) then data else []
      ensures state == ReadingAtr ==> written == old(written)
      ensures state != ReadingAtr ==> outLen == old(outLen) && outBuf[..outLen] == old(outBuf[..outLen])
    {
      if state == ReadingAtr {
        if outLen + |data| > BUFFER { return -ENOMEM; }
        Hold(data);
        accepted := accepted + data;
      } else if state == Ready {
        err := Write(data, device);
        if err < 0 { return err; }
        accepted := accepted + data;
      }
      return 0;
    }

    /** What read() adds to the answer. */
    method AppendAtr(data: seq<Byte>)
      requires Valid() && atrLen + |data| <= BUFFER
      modifies atrBuf, `atrLen
      ensures Valid() && atrLen == old(atrLen) + |data| && atrBuf[..atrLen] == old(atrBuf[..atrLen]) + data
    {
      ghost var got := atrBuf[..atrLen];
      var k := 0;
      while k < |data|
        modifies atrBuf
        invariant k <= |data| && atrBuf[..atrLen + k] == got + data[..k]
      {
        atrBuf[atrLen + k] := data[k];
        assert data[..k + 1] == data[..k] + [data[k]];
        assert atrBuf[..atrLen + k + 1] == atrBuf[..atrLen + k] + [data[k]];
        k := k + 1;
      }
      atrLen := atrLen + |data|;
      assert atrBuf[..atrLen] == got + data;
    }

    /** vgsm_mesim_local_receive_atr(): the held bytes go out when the answer is complete and starts with the direct
        convention. If that write fails the SIM is ready all the same, and they stay where they are. */
    method ReceiveAtr(data: seq<Byte>, device: int) returns (log: seq<Byte>, err: int)
      requires Valid() && state == ReadingAtr && atrLen + |data| <= BUFFER && device <= 0
      modifies this, atrBuf
      ensures Valid() && accepted == old(accepted)
      ensures atrLen == old(atrLen) + |data| && atrBuf[..atrLen] == old(atrBuf[..atrLen]) + data
      ensures state == Ready || state == ReadingAtr
      ensures state == Ready <==> Complete(atrBuf[..atrLen]) && atrBuf[0] == DIRECT_CONVENTION
      ensures err == if state == Ready && old(outLen) > 0 then device else 0
      ensures state == Ready ==> (flushed <==> err == 0)
      ensures state == Ready && err == 0 ==> written == accepted && outLen == 0
      ensures state == ReadingAtr || err != 0 ==> written == [] && outLen == old(outLen)
    {
      log, err := [], 0;
      AppendAtr(data);
      var complete := IsComplete(atrBuf, atrLen);
      if !complete { return; }
      if atrBuf[0] != DIRECT_CONVENTION { return; }
      log := LogInterface(atrBuf, atrBuf[..atrLen]);
      state := Ready;
      if outLen > 0 {
        err := Write(outBuf[..outLen], device);
        if err < 0 {
          flushed := false;
          return;
        }
        outLen := 0;
      }
    }
  }
}
