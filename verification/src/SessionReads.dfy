/**
 Any number of reads into memory.  A modem that puts CR LF in front of every response line and prompt, as section 5.7 of
 ITU-T V.250 has it, never makes the receive loop look behind the NUL, however its bytes are cut into reads.
 */
module SessionReads {
  import opened Text
  import opened Memory
  import opened Session
  import opened SessionChunking
  import opened SessionMemory

  /** Whatever the loop meets in a response starts with CR, and a prompt with CR LF. */
  ghost predicate Orderly(cs: seq<UrcClass>, s: Session)
    requires Owned(cs, s)
    decreases |s.buf|
  {
    var (s1, n) := Match(cs, s);
    && (s.state == ReadingResponse && s.buf != "" ==> s.buf[0] == '\r')
    && (s.state == ReadingResponse && PromptAt(s.buf, ResponseBegin(s.buf)) ==> ResponseBegin(s.buf) == 2)
    && (n == 0 || Orderly(cs, Pulled(s1, n)))
  }

  lemma {:induction false} OrderlyIsFramed(cs: seq<UrcClass>, s: Session)
    requires Owned(cs, s) && Orderly(cs, s)
    ensures Framed(cs, s)
    decreases |s.buf|
  {
    hide Match, Owned;
    var (s1, n) := Match(cs, s);
    if n != 0 {
      DrainTurn(cs, s);
      OrderlyIsFramed(cs, Pulled(s1, n));
    }
  }

  lemma OrderlyTurn(cs: seq<UrcClass>, s: Session)
    requires Owned(cs, s) && Orderly(cs, s) && Match(cs, s).1 != 0
    ensures Owned(cs, Pulled(Match(cs, s).0, Match(cs, s).1))
    ensures Orderly(cs, Pulled(Match(cs, s).0, Match(cs, s).1))
  {
  }

  lemma OrderlyStart(cs: seq<UrcClass>, s: Session, t: string)
    requires Owned(cs, s) && Owned(cs, Fed(s, t)) && Orderly(cs, Fed(s, t))
    ensures !ShortPrompt(s) && !LoneCharacter(s)
  {
    hide Match, Owned;
    OrderlyIsFramed(cs, Fed(s, t));
    FramedIsNotShort(cs, s, t);
    if s.state == ReadingResponse && |s.buf| == 1 { assert (s.buf + t)[0] == s.buf[0]; }
  }

  /** A part of an orderly stream is handled inside the string, and the rest is orderly behind it. */
  lemma {:induction false} OrderlyPrefix(cs: seq<UrcClass>, s: Session, t: string)
    requires Owned(cs, s) && Fits(s, t) && Owned(cs, Fed(s, t)) && Orderly(cs, Fed(s, t))
    ensures Inside(cs, s)
    ensures Owned(cs, Fed(Drain(cs, s), t)) && Orderly(cs, Fed(Drain(cs, s), t))
    decreases |s.buf|
  {
    hide Match, ShortPrompt, LoneCharacter, Orderly, Owned;
    OrderlyStart(cs, s, t);
    var (s1, n) := Match(cs, s);
    if n == 0 {
      DrainStops(cs, s);
    } else {
      MatchExtends(cs, s, t);
      PulledFed(s1, n, t);
      OrderlyTurn(cs, Fed(s, t));
      DrainTurn(cs, s);
      FedOwned(cs, Pulled(s1, n), t);
      OrderlyPrefix(cs, Pulled(s1, n), t);
    }
  }

  /** One read into memory, after which the loop ends in c. */
  ghost predicate ReadEnds(cs: seq<UrcClass>, s: Session, m: string, bytes: string, c: (Session, string))
    requires Owned(cs, s) && Holds(s, m) && LiveWithInput(s.state) && |s.buf| + |bytes| < BUFFER_SIZE
  {
    StoredIs(m, bytes);
    ReceiveIsDrain(cs, s, bytes);
    EndsIn(cs, Fed(s, UpToNul(bytes)), Stored(m, bytes), c)
  }

  /** Reads of these chunks, one after the other, after each of which the loop ends, lead to c. */
  ghost predicate ReadsEnd(cs: seq<UrcClass>, s: Session, m: string, chunks: seq<string>, c: (Session, string))
    requires Owned(cs, s) && Holds(s, m)
    decreases |chunks|
  {
    if chunks == [] then c == (s, m)
    else
      && LiveWithInput(s.state) && |s.buf| + |chunks[0]| < BUFFER_SIZE
      && exists d: (Session, string) ::
           && ReadEnds(cs, s, m, chunks[0], d) && Owned(cs, d.0) && Holds(d.0, d.1)
           && ReadsEnd(cs, d.0, d.1, chunks[1..], c)
  }

  /** A read of part of an orderly stream ends as Session has it, whatever is behind the NUL. */
  lemma OrderlyRead(cs: seq<UrcClass>, s: Session, m: string, c: string, rest: string) returns (w: string)
    requires Owned(cs, s) && Holds(s, m) && Fits(s, c + rest)
    requires Owned(cs, Fed(s, c + rest)) && Orderly(cs, Fed(s, c + rest))
    ensures LiveWithInput(s.state) && |s.buf| + |c| < BUFFER_SIZE
    ensures Holds(Receive(cs, s, c), w) && ReadEnds(cs, s, m, c, (Receive(cs, s, c), w))
    ensures var r := Receive(cs, s, c);
      Fits(r, rest) && Owned(cs, Fed(r, rest)) && Orderly(cs, Fed(r, rest))
  {
    hide Owned, CString, Orderly, Drain, Receive, EndsIn, UpToNul, Stored;
    PlainParts(c, rest);
    FedTwice(s, c, rest);
    FedOwned(cs, s, c);
    OrderlyPrefix(cs, Fed(s, c), rest);
    ReceiveIsDrain(cs, s, c);
    DrainSettles(cs, Fed(s, c));
    StoredIs(m, c);
    InsideIsQuiet(cs, Fed(s, c), Stored(m, c));
    w := QuietDrains(cs, Fed(s, c), Stored(m, c));
  }

  lemma PlainParts(c: string, rest: string)
    requires '\0' !in c + rest
    ensures '\0' !in c && '\0' !in rest && UpToNul(c) == c
  {
    assert forall i :: 0 <= i < |c| ==> c[i] == (c + rest)[i];
    assert forall i :: 0 <= i < |rest| ==> rest[i] == (c + rest)[|c| + i];
  }

  /** However an orderly stream is cut into reads, and whatever is behind the NUL, the loop ends after every read, and
      in the end as after one read of the whole. */
  lemma {:induction false} ReadsIndependence(cs: seq<UrcClass>, s: Session, m: string, chunks: seq<string>)
    returns (w: string)
    requires Owned(cs, s) && Holds(s, m) && Fits(s, Joined(chunks))
    requires Owned(cs, Fed(s, Joined(chunks))) && Orderly(cs, Fed(s, Joined(chunks)))
    requires chunks != [] || Match(cs, s).1 == 0
    ensures ReadsEnd(cs, s, m, chunks, (Receive(cs, s, Joined(chunks)), w))
    decreases |chunks|
  {
    hide Owned, Holds, Orderly, Receive, ReadEnds, Match, Fed;
    if chunks == [] {
      EmptyRead(cs, s);
      w := m;
    } else {
      var c, rest := chunks[0], Joined(chunks[1..]);
      var v := OrderlyRead(cs, s, m, c, rest);
      var r := Receive(cs, s, c);
      AfterRead(cs, s, c, rest);
      w := ReadsIndependence(cs, r, v, chunks[1..]);
      assert ReadEnds(cs, s, m, c, (r, v));
    }
  }

  lemma EmptyRead(cs: seq<UrcClass>, s: Session)
    requires Owned(cs, s) && LiveWithInput(s.state) && Match(cs, s).1 == 0
    ensures Receive(cs, s, "") == s
  {
    hide Match;
    assert s.buf + "" == s.buf;
    ReceiveIsDrain(cs, s, "");
  }

  lemma AfterRead(cs: seq<UrcClass>, s: Session, c: string, rest: string)
    requires Owned(cs, s) && Fits(s, c + rest)
    requires Owned(cs, Fed(s, c + rest)) && Orderly(cs, Fed(s, c + rest))
    ensures LiveWithInput(s.state) && |s.buf| + |c| + |rest| < BUFFER_SIZE
    ensures LiveWithInput(Receive(cs, s, c).state) && |Receive(cs, s, c).buf| + |rest| < BUFFER_SIZE
    ensures Receive(cs, s, c + rest) == Receive(cs, Receive(cs, s, c), rest)
    ensures Match(cs, Receive(cs, s, c)).1 == 0
  {
    hide Owned, Match, Drain, Receive, Orderly, Framed;
    PlainParts(c, rest);
    OrderlyIsFramed(cs, Fed(s, c + rest));
    assert UpToNul(c + rest) == c + rest;
    FirstChunk(cs, s, c, rest);
    ReceiveIsDrain(cs, s, c);
    DrainSettles(cs, Fed(s, c));
  }
}
