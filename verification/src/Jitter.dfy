/** The transmit side of visdn_write() in chan_visdn.c: the moving average of the queue length and what is written. */
module Jitter {
  import opened Bits

  const SILENCE: octet := 0x2a
  const U16 := 0x1_0000

  /** The weight of the average and the marks of the queue length. */
  datatype Marks = Marks(weight: nat, hardLow: nat, low: nat, high: nat, hardHigh: nat)

  /** One step of the average, kept in 16 bits. */
  function Average(n: nat, a: nat, p: nat): (r: nat)
    ensures r < U16
  {
    (n * a + p) / (n + 1) % U16
  }

  // ---------------------------------------------------------------- the average

  lemma Divided(x: nat, m: nat, q: nat)
    requires m > 0 && q == x / m
    ensures m * q <= x < m * (q + 1)
  {
    assert x == m * q + x % m;
  }

  /** What lies between: the weighted mean of a and p, rounded down. */
  lemma MeanBetween(n: nat, a: nat, p: nat, q: nat)
    requires (n + 1) * q <= n * a + p < (n + 1) * (q + 1)
    ensures if a <= p then a <= q <= p else p <= q < a
  {
    var m := n + 1;
    assert m * a == n * a + a && m * p == n * p + p;
    assert m * (p + 1) == m * p + m;
    if a <= p {
      MulGrows(n, a, p);
      if q < a { MulGrows(m, q + 1, a); }
      if q > p { MulGrows(m, p + 1, q); }
    } else {
      MulGrows(n, p, a);
      if q < p { MulGrows(m, q + 1, p); }
      if q >= a { MulGrows(m, a, q); }
    }
  }

  /** The quotient without division: it lies between both arguments, and moves whenever it can. */
  lemma Quotient(n: nat, a: nat, p: nat)
    ensures var q := (n * a + p) / (n + 1);
      && (n + 1) * q <= n * a + p < (n + 1) * (q + 1)
      && (if a <= p then a <= q <= p else p <= q < a)
  {
    var q := (n * a + p) / (n + 1);
    Divided(n * a + p, n + 1, q);
    MeanBetween(n, a, p, q);
  }

  lemma MulGrows(m: nat, x: nat, y: nat)
    requires x <= y
    ensures m * x <= m * y
  {
  }

  /** With pressures up to P the average stays within [0, P]. */
  lemma AverageBounded(n: nat, a: nat, p: nat, P: nat)
    requires a <= P && p <= P < U16
    ensures Average(n, a, p) == (n * a + p) / (n + 1) <= P
  {
    Quotient(n, a, p);
  }

  /** The average rests exactly on the values up to n below the pressure. */
  lemma RestsExactly(n: nat, a: nat, p: nat)
    requires a < U16 && p < U16
    ensures Average(n, a, p) == a <==> p - n <= a <= p
  {
    Quotient(n, a, p);
    var q := (n * a + p) / (n + 1);
    AverageBounded(n, a, p, if a < p then p else a);
    if a <= p { Between(n, a, p, q); }
  }

  lemma Between(n: nat, a: nat, p: nat, q: nat)
    requires (n + 1) * q <= n * a + p < (n + 1) * (q + 1) && a <= q
    ensures q == a <==> p - n <= a
  {
    assert (n + 1) * (a + 1) == n * a + a + n + 1;
    if q > a { MulGrows(n + 1, a + 1, q); }
  }

  /** Where the average comes to rest under the constant pressure p. */
  function Rest(n: nat, a: nat, p: nat): nat
  {
    if a > p then p else if a + n < p then p - n else a
  }

  function Gap(a: nat, b: nat): nat { if a > b then a - b else b - a }

  lemma StepKeepsRest(n: nat, a: nat, p: nat)
    requires a < U16 && p < U16
    ensures Rest(n, Average(n, a, p), p) == Rest(n, a, p)
    ensures Average(n, a, p) != a ==> Gap(Average(n, a, p), Rest(n, a, p)) < Gap(a, Rest(n, a, p))
  {
    Quotient(n, a, p);
    RestsExactly(n, a, p);
    AverageBounded(n, a, p, if a < p then p else a);
    if a + n < p { EdgeNotPassed(n, a, p, Average(n, a, p)); }
  }

  /** From below, the average stops at p - n. */
  lemma EdgeNotPassed(n: nat, a: nat, p: nat, q: nat)
    requires (n + 1) * q <= n * a + p && a + n < p
    ensures q + n <= p
  {
    var e := p - n;
    assert (n + 1) * (e + 1) == n * e + e + n + 1;
    MulGrows(n, a, e);
    if q > e { MulGrows(n + 1, e + 1, q); }
  }

  function Averages(n: nat, a: nat, p: nat, k: nat): nat
    decreases k
  {
    if k == 0 then a else Averages(n, Average(n, a, p), p, k - 1)
  }

  /** Under a constant pressure the average gets to its resting place in as many steps as it is away from it, and
      stays there; in particular it enters [p - n, p] and never leaves. */
  lemma {:induction false} AverageConverges(n: nat, a: nat, p: nat, k: nat)
    requires a < U16 && p < U16 && k >= Gap(a, Rest(n, a, p))
    ensures Averages(n, a, p, k) == Rest(n, a, p)
    decreases k
  {
    StepKeepsRest(n, a, p);
    RestsExactly(n, a, p);
    if k > 0 { AverageConverges(n, Average(n, a, p), p, k - 1); }
  }

  // ---------------------------------------------------------------- what is written

  function Silence(n: nat): (r: seq<octet>)
    ensures |r| == n
  {
    seq(n, _ => SILENCE)
  }

  datatype Written = Written(average: nat, out: seq<octet>)

  /** How many samples of silence go before a frame; the average is already the new one. */
  function Added(m: Marks, average: nat, pressure: nat): nat
  {
    if pressure < m.hardLow then m.hardLow - pressure
    else if average < m.low && pressure < m.low then m.low - average
    else 0
  }

  /** How many samples of a frame of len are dropped, when none are added. */
  function Dropped(m: Marks, average: nat, pressure: nat, len: nat): (d: nat)
    ensures d <= len
  {
    var over := if pressure + len > m.hardHigh then pressure + len - m.hardHigh
                else if average > m.high && pressure > m.high then average - m.high
                else 0;
    if len < over then len else over
  }

  function Write(m: Marks, average: nat, pressure: nat, frame: seq<octet>, late: bool): Written
  {
    var a := Average(m.weight, average, pressure);
    if late then Written((m.high + m.low) / 2 % U16, Silence((m.high + m.low) / 2) + frame)
    else if Added(m, a, pressure) > 0 then Written(a, Silence(Added(m, a, pressure)) + frame)
    else Written(a, frame[..|frame| - Dropped(m, a, pressure, |frame|)])
  }

  /** A frame goes out whole behind silence, or as a prefix; a write in time leaves at least hardLow samples queued,
      and without silence at most hardHigh, or what was queued before if that was more. */
  lemma QueueKept(m: Marks, average: nat, pressure: nat, frame: seq<octet>)
    ensures var w := Write(m, average, pressure, frame, false);
      && (|w.out| > |frame| || w.out <= frame)
      && (|w.out| > |frame| ==> w.out == Silence(|w.out| - |frame|) + frame)
      && pressure + |w.out| >= m.hardLow
      && (|w.out| <= |frame| ==> pressure + |w.out| <= if pressure > m.hardHigh then pressure else m.hardHigh)
      && (pressure < m.hardLow ==> pressure + |w.out| == m.hardLow + |frame|)
  {
  }

  /** Over the hard high mark exactly so much is dropped that the queue ends on it, or does not grow. */
  lemma HardHighExact(m: Marks, average: nat, pressure: nat, frame: seq<octet>)
    requires pressure + |frame| > m.hardHigh && Added(m, Average(m.weight, average, pressure), pressure) == 0
    ensures var w := Write(m, average, pressure, frame, false);
      pressure + |w.out| == if pressure > m.hardHigh then pressure else m.hardHigh
  {
  }

  /** What is written in time, mark by mark; the average a is the new one. */
  lemma WrittenInTime(m: Marks, average: nat, p: nat, frame: seq<octet>)
    ensures var w := Write(m, average, p, frame, false); var a, len := w.average, |frame|;
      && a == (m.weight * average + p) / (m.weight + 1) % U16
      && (p < m.hardLow ==> IsPadded(w.out, m.hardLow - p, frame))
      && (m.hardLow <= p < m.low && a < m.low ==> IsPadded(w.out, m.low - a, frame))
      && (m.hardLow <= p && (m.low <= p || m.low <= a) ==>
            w.out <= frame
            && len - |w.out| == if p + len > m.hardHigh then Least(len, p + len - m.hardHigh)
                                else if p > m.high && a > m.high then Least(len, a - m.high) else 0)
  {
  }

  function Least(x: nat, y: nat): nat { if x < y then x else y }

  /** A whole frame behind n samples of silence. */
  ghost predicate IsPadded(out: seq<octet>, n: nat, frame: seq<octet>)
  {
    |out| == n + |frame| && (forall i :: 0 <= i < n ==> out[i] == 0x2a) && out[n..] == frame
  }

  /** Between the soft marks a frame goes out as it is. */
  lemma BetweenTheMarks(m: Marks, average: nat, p: nat, frame: seq<octet>)
    requires m.hardLow <= m.low <= p <= m.high && p + |frame| <= m.hardHigh
    ensures Write(m, average, p, frame, false).out == frame
  {
    WrittenInTime(m, average, p, frame);
  }

  /** A late one goes behind as much silence as the middle between the soft marks, where the average starts again. */
  lemma WrittenLate(m: Marks, average: nat, p: nat, frame: seq<octet>)
    ensures var w := Write(m, average, p, frame, true);
      IsPadded(w.out, (m.low + m.high) / 2, frame) && w.average == (m.low + m.high) / 2 % U16
  {
  }

  /** A call of visdn_write() with a frame of at least one sample. */
  datatype Call = Call(frame: seq<octet>, pressure: nat, late: bool)

  function AverageAfter(m: Marks, average: nat, calls: seq<Call>): nat
    decreases |calls|
  {
    if calls == [] then average
    else
      var c := calls[0];
      AverageAfter(m, Write(m, average, c.pressure, c.frame, c.late).average, calls[1..])
  }

  /** Over any run with pressures and the reset value up to P, the average is at most P. */
  lemma {:induction false} RunBounded(m: Marks, average: nat, calls: seq<Call>, P: nat)
    requires average <= P && (m.high + m.low) / 2 <= P < U16
    requires forall k :: 0 <= k < |calls| ==> calls[k].pressure <= P
    ensures AverageAfter(m, average, calls) <= P
    decreases |calls|
  {
    if calls != [] {
      var c := calls[0];
      AverageBounded(m.weight, average, c.pressure, P);
      RunBounded(m, Write(m, average, c.pressure, c.frame, c.late).average, calls[1..], P);
    }
  }

  class Channel {
    const marks: Marks
    var average: nat
    var lastTx: int

    ghost predicate Valid()
      reads this
    {
      average < U16
    }

    constructor (marks: Marks)
      ensures Valid() && this.marks == marks && average == 0
    {
      this.marks, average, lastTx := marks, 0, 0;
    }

    /** The buffer visdn_write() hands to the device at the time `now`, for a frame of alaw samples. */
    method WriteFrame(frame: seq<octet>, pressure: nat, now: int) returns (out: seq<octet>)
      requires Valid()
      modifies this
      ensures Valid()
      ensures frame == [] ==> out == [] && average == old(average) && lastTx == old(lastTx)
      ensures frame != [] ==> lastTx == now
      ensures frame != [] ==>
        Written(average, out) == Write(marks, old(average), pressure, frame, now - old(lastTx) > |frame| * 125 * 2)
    {
      if frame == [] { return []; }
      average := (marks.weight * average + pressure) / (marks.weight + 1) % U16;
      out := frame;
      if now - lastTx > |frame| * 125 * 2 {
        var diff := (marks.high + marks.low) / 2;
        average := diff % U16;
        out := Silence(diff) + frame;
      } else if pressure < marks.hardLow {
        out := Silence(marks.hardLow - pressure) + frame;
      } else if average < marks.low && pressure < marks.low {
        out := Silence(marks.low - average) + frame;
      } else if pressure + |frame| > marks.hardHigh {
        var over := pressure + |frame| - marks.hardHigh;
        var drop := if |frame| < over then |frame| else over;
        out := frame[..|frame| - drop];
      } else if average > marks.high && pressure > marks.high {
        var over := average - marks.high;
        var drop := if |frame| < over then |frame| else over;
        out := frame[..|frame| - drop];
      }
      lastTx := now;
    }
  }
}
