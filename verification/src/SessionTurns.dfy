/** How the receive loop gets through a stream of bytes, one part of it after the other. */
module SessionTurns {
  import opened Text
  import opened Session
  import opened SessionChunking
  import opened SessionMemory
  import opened SessionReads

  ghost predicate Ready(cs: seq<UrcClass>, s: Session, input: string)
  {
    Owned(cs, s) && s.buf == "" && Fits(s, input)
  }

  lemma FedReady(cs: seq<UrcClass>, s: Session, x: string, rest: string)
    requires Ready(cs, s, x + rest)
    ensures Owned(cs, Fed(s, x + rest)) && Owned(cs, Fed(s, rest)) && Ready(cs, s, rest)
  {
    assert forall c :: c in rest ==> c in x + rest;
    FedOwned(cs, s, x + rest);
    FedOwned(cs, s, rest);
  }

  /** The loop, facing x + rest in state s, consumes x in one turn and goes on with rest in state t. */
  ghost predicate Consumes(cs: seq<UrcClass>, s: Session, x: string, t: Session, rest: string)
  {
    && Owned(cs, s) && s.buf == "" && Fits(s, x + rest)
    && Owned(cs, t) && t.buf == "" && LiveWithInput(t.state)
    && Owned(cs, Fed(s, x + rest)) && Owned(cs, Fed(t, rest))
    && x != "" && Match(cs, Fed(s, x + rest)) == (Fed(t, x + rest), |x|)
    && (s.state == ReadingResponse ==> x[0] == '\r')
    && (s.state == ReadingResponse && PromptAt(x + rest, ResponseBegin(x + rest)) ==>
          ResponseBegin(x + rest) == 2)
  }

  /** It gets through x, in any number of turns and in an orderly way, and goes on with rest in state t. */
  ghost predicate Passes(cs: seq<UrcClass>, s: Session, x: string, t: Session, rest: string)
  {
    && Ready(cs, s, x + rest) && Ready(cs, t, rest)
    && Owned(cs, Fed(s, x + rest)) && Owned(cs, Fed(t, rest))
    && Drain(cs, Fed(s, x + rest)) == Drain(cs, Fed(t, rest))
    && (Orderly(cs, Fed(t, rest)) ==> Orderly(cs, Fed(s, x + rest)))
  }

  /** One turn of the loop takes it from a to b. */
  lemma TurnTo(cs: seq<UrcClass>, a: Session, m: Session, n: nat, b: Session)
    requires Owned(cs, a) && Owned(cs, b) && n > 0 && Match(cs, a) == (m, n) && Pulled(m, n) == b
    requires a.state == ReadingResponse && a.buf != "" ==> a.buf[0] == '\r'
    requires a.state == ReadingResponse && PromptAt(a.buf, ResponseBegin(a.buf)) ==> ResponseBegin(a.buf) == 2
    ensures Drain(cs, a) == Drain(cs, b)
    ensures Orderly(cs, b) ==> Orderly(cs, a)
  {
  }

  lemma TakesTurn(cs: seq<UrcClass>, s: Session, x: string, t: Session, rest: string)
    requires Consumes(cs, s, x, t, rest)
    ensures Passes(cs, s, x, t, rest)
  {
    hide Match, Drain, Orderly, Owned;
    assert (x + rest)[|x|..] == rest;
    assert Fed(s, x + rest).buf == x + rest;
    assert forall c :: c in rest ==> c in x + rest;
    TurnTo(cs, Fed(s, x + rest), Fed(t, x + rest), |x|, Fed(t, rest));
  }

  /** A turn outside of a response. */
  lemma TakesPlainTurn(cs: seq<UrcClass>, s: Session, x: string, t: Session, rest: string)
    requires Ready(cs, s, x + rest) && Owned(cs, t) && t.buf == "" && LiveWithInput(t.state)
    requires Owned(cs, Fed(s, x + rest)) && Match(cs, Fed(s, x + rest)) == (Fed(t, x + rest), |x|)
    requires s.state != ReadingResponse && x != ""
    ensures Passes(cs, s, x, t, rest)
  {
    hide Match, Drain, Orderly, Owned, Passes, PromptAt, ResponseBegin;
    assert forall c :: c in rest ==> c in x + rest;
    FedOwned(cs, t, rest);
    TakesTurn(cs, s, x, t, rest);
  }

  lemma PassesNothing(cs: seq<UrcClass>, s: Session, rest: string)
    requires Ready(cs, s, rest)
    ensures Passes(cs, s, "", s, rest)
  {
    hide Drain, Orderly;
    assert "" + rest == rest;
    FedOwned(cs, s, rest);
  }

  /** One part and then the next. */
  lemma PassesBoth(cs: seq<UrcClass>, s: Session, x: string, t: Session, y: string, u: Session, rest: string)
    requires Passes(cs, s, x, t, y + rest) && Passes(cs, t, y, u, rest)
    ensures Passes(cs, s, x + y, u, rest)
  {
    hide Drain, Orderly, Owned;
    assert x + (y + rest) == x + y + rest;
  }

  // ---------------------------------------------------------------- to the end

  /** Facing input, the loop does all there is to do in an orderly way and leaves r. */
  ghost predicate Leads(cs: seq<UrcClass>, s: Session, input: string, r: Session)
  {
    Ready(cs, s, input) && Owned(cs, Fed(s, input)) && Drain(cs, Fed(s, input)) == r && Orderly(cs, Fed(s, input))
  }

  lemma PassesThenLeads(cs: seq<UrcClass>, s: Session, x: string, t: Session, rest: string, r: Session)
    requires Passes(cs, s, x, t, rest) && Leads(cs, t, rest, r)
    ensures Leads(cs, s, x + rest, r)
  {
    hide Drain, Orderly, Owned;
  }

  /** With nothing more to read and nothing to do, it stays. */
  lemma LeadsNowhere(cs: seq<UrcClass>, s: Session)
    requires Owned(cs, s) && s.buf == "" && LiveWithInput(s.state)
    ensures Leads(cs, s, "", s) && Match(cs, s).1 == 0
  {
    hide Drain;
    assert Fed(s, "") == s;
    NothingToMatch(cs, s);
    DrainStops(cs, s);
    RestIsOrderly(cs, s);
  }

  lemma RestIsOrderly(cs: seq<UrcClass>, s: Session)
    requires Owned(cs, s) && s.buf == "" && Match(cs, s).1 == 0
    ensures Orderly(cs, s)
  {
    hide Match, Owned;
  }

  /** What it leads to, it leads to in any cut of the bytes. */
  lemma LeadsInAnyCut(cs: seq<UrcClass>, s: Session, chunks: seq<string>, r: Session)
    requires Leads(cs, s, Joined(chunks), r) && Match(cs, s).1 == 0
    ensures ReceiveAll(cs, s, chunks) == r == Receive(cs, s, Joined(chunks))
  {
    hide Match, Drain, Orderly;
    OrderlyIsFramed(cs, Fed(s, Joined(chunks)));
    PlainChunks(chunks);
    assert UpToNul(Joined(chunks)) == Joined(chunks);
    ChunkingIndependence(cs, s, chunks);
    ReceiveIsDrain(cs, s, Joined(chunks));
  }

  /** And in memory, whatever is behind the NUL. */
  lemma LeadsInMemory(cs: seq<UrcClass>, s: Session, m: string, chunks: seq<string>, r: Session) returns (w: string)
    requires Leads(cs, s, Joined(chunks), r) && Match(cs, s).1 == 0 && Holds(s, m)
    ensures ReadsEnd(cs, s, m, chunks, (r, w))
  {
    hide Match, Drain, Orderly, ReadsEnd, Holds;
    LeadsInAnyCut(cs, s, chunks, r);
    w := ReadsIndependence(cs, s, m, chunks);
  }

  lemma {:induction false} PlainChunks(chunks: seq<string>)
    requires '\0' !in Joined(chunks)
    ensures forall k :: 0 <= k < |chunks| ==> '\0' !in chunks[k]
  {
    if chunks != [] {
      assert forall i :: 0 <= i < |chunks[0]| ==> Joined(chunks)[i] == chunks[0][i];
      assert Joined(chunks)[|chunks[0]|..] == Joined(chunks[1..]);
      PlainChunks(chunks[1..]);
      forall k | 0 <= k < |chunks| ensures '\0' !in chunks[k] {
        if k > 0 { assert chunks[k] == chunks[1..][k - 1]; }
      }
    }
  }
}
