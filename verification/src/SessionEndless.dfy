/**
 When the receive loop ends.  A prompt in a buffer of two or three characters drops what is behind the NUL to the front;
 if that is such a prompt again and the request in hand has no PDU, the loop writes Escape for ever.
 */
module SessionEndless {
  import opened Text
  import opened Memory
  import opened Session
  import opened SessionChunking
  import opened SessionMemory
  import opened SessionPrompt

  /** A prompt that is dropped whole, and more. */
  ghost predicate IsShortPrompt(b: string) { PromptAt(b, ResponseBegin(b)) && |b| < 4 }

  /** A short prompt for a request without a PDU, in front of another one. */
  ghost predicate Stuck(s: Session, m: string)
  {
    && Holds(s, m) && ShortPrompt(s) && IsShortPrompt(CString(m, 4))
    && s.current.Some? && s.current.value < |s.reqs| && s.reqs[s.current.value].pdu.None?
  }

  lemma StuckTurn(cs: seq<UrcClass>, s: Session, m: string)
    requires Owned(cs, s) && Stuck(s, m)
    ensures Turn(cs, s, m).2 == 4 && Turn(cs, s, m).0 == Write(s, Escape).(buf := CString(m, 4))
    ensures Stuck(Turn(cs, s, m).0, Turn(cs, s, m).1)
    ensures CString(Turn(cs, s, m).1, 4) == CString(m, 4)
  {
    hide Owned, CString, Moved, Turn, PlainTurn, EndLine;
    PromptTurn(cs, s, m);
    DropBeyond(m);
  }

  function Escapes(k: nat): seq<Tx> { seq(k, _ => Escape) }

  lemma EscapesNext(tx: seq<Tx>, k: nat)
    ensures tx + Escapes(0) == tx && tx + [Escape] + Escapes(k) == tx + Escapes(k + 1)
  {
  }

  /** From there on every turn writes Escape and drops four characters. */
  lemma {:induction false} StuckForever(cs: seq<UrcClass>, s: Session, m: string, k: nat)
    requires Owned(cs, s) && Holds(s, m) && Stuck(s, m)
    ensures !Rests(cs, Turned(cs, s, m, k))
    ensures Stuck(Turned(cs, s, m, k).0, Turned(cs, s, m, k).1)
    ensures Turned(cs, s, m, k).0.tx == s.tx + Escapes(k)
    decreases k
  {
    hide Owned, Turn, Stuck, Holds, Escapes;
    StuckTurn(cs, s, m);
    EscapesNext(s.tx, if k > 0 then k - 1 else 0);
    if k > 0 { StuckForever(cs, Turn(cs, s, m).0, Turn(cs, s, m).1, k - 1); }
  }

  // ---------------------------------------------------------------- what brings the loop nearer its end

  /** A line ended in place is where what is dropped ends. */
  lemma MatchAtMemory(cs: seq<UrcClass>, s: Session, m: string)
    requires Owned(cs, s) && Holds(s, m)
    ensures var (_, w, n) := MatchAt(cs, s, m); w == m || (n >= 2 && w == m[n - 2 := '\0'])
  {
    hide Owned, CString, Match, EndLine, EndsUrc, IsMemory;
  }

  lemma TurnIs(cs: seq<UrcClass>, s: Session, m: string)
    requires Owned(cs, s) && Holds(s, m) && Turn(cs, s, m).2 != 0
    ensures var (x, w, n) := MatchAt(cs, s, m); var (s1, m1, k) := Turn(cs, s, m);
      s1 == x.(buf := CString(w, n)) && m1 == Moved(w, n) && n == k
  {
    hide Owned, CString, MatchAt, Moved;
  }

  /** Dropping no more than there is leaves less, and no more behind the fourth character. */
  lemma TurnInside(cs: seq<UrcClass>, s: Session, m: string)
    requires Owned(cs, s) && Holds(s, m) && 0 < Turn(cs, s, m).2 <= |s.buf|
    ensures Turn(cs, s, m).0.buf == s.buf[Turn(cs, s, m).2..]
    ensures |CString(Turn(cs, s, m).1, 4)| <= |CString(m, 4)|
  {
    hide Owned, CString, MatchAt, Moved, Turn;
    MatchAtMemory(cs, s, m);
    TurnIs(cs, s, m);
    DropInside(m, MatchAt(cs, s, m).1, Turn(cs, s, m).2);
  }

  /** More is dropped only in the two cases that can see behind the NUL. */
  lemma TurnBeyond(cs: seq<UrcClass>, s: Session, m: string)
    requires Owned(cs, s) && Holds(s, m) && Turn(cs, s, m).2 > |s.buf|
    ensures ShortPrompt(s) || (LoneCharacter(s) && LineEnd(m).Some? && Turn(cs, s, m).2 == LineEnd(m).value + 2)
  {
    hide Owned, Turn, LineEnd, Holds;
    if s.state != ReadingResponse {
      OtherTurn(cs, s, m);
    } else if s.buf == "" || s.buf == "\r" {
      EmptyTurn(cs, s, m);
    } else if ScanResponse(s.buf) == Prompt {
      PromptTurn(cs, s, m);
    } else if |s.buf| >= 2 {
      LineTurn(cs, s, m);
    } else {
      LoneTurn(cs, s, m);
    }
  }

  // ---------------------------------------------------------------- with little left, the loop ends

  /** At most three characters, and no end of a line behind them. */
  ghost predicate Tail(s: Session, m: string)
    requires Holds(s, m)
  {
    || (s.state == ReadingResponse && |s.buf| < 4 && !ShortPrompt(s) && (s.buf == "" || |CString(m, 2)| <= 1))
    || (s.state == AwaitingSmsEcho && |s.buf| < 4)
    || (s.state == AwaitingSmsEcho1A && |s.buf| < 3)
  }

  lemma TailResponseRests(cs: seq<UrcClass>, s: Session, m: string)
    requires Owned(cs, s) && Holds(s, m) && Tail(s, m) && s.state == ReadingResponse
    ensures Turn(cs, s, m).2 == 0
  {
    hide Owned, CString, Turn, EndLine, LineEnd;
    if s.buf == "" || s.buf == "\r" {
      EmptyTurn(cs, s, m);
    } else if |s.buf| == 1 {
      LoneTurn(cs, s, m);
      NoLineEndThere(m);
    } else {
      LineTurn(cs, s, m);
      assert FindCrLf(s.buf, 2).None?;
    }
  }

  lemma NoLineEndThere(m: string)
    requires IsMemory(m) && |m| == BUFFER_SIZE && |CString(m, 2)| <= 1
    ensures LineEnd(m).None?
  {
    hide CString;
  }

  /** The echoes take at least one character each. */
  lemma TailEchoTurn(cs: seq<UrcClass>, s: Session, m: string)
    requires Owned(cs, s) && Holds(s, m) && Tail(s, m) && s.state != ReadingResponse && Turn(cs, s, m).2 != 0
    ensures |Turn(cs, s, m).0.buf| < |s.buf| && Tail(Turn(cs, s, m).0, Turn(cs, s, m).1)
  {
    hide CString, Turn, EndLine;
    OtherTurn(cs, s, m);
    TurnInside(cs, s, m);
    if s.state == AwaitingSmsEcho1A { LastEcho(cs, s, m); }
  }

  lemma LastEcho(cs: seq<UrcClass>, s: Session, m: string)
    requires Owned(cs, s) && Holds(s, m) && s.state == AwaitingSmsEcho1A && |s.buf| < 3 && Turn(cs, s, m).2 != 0
    ensures var (s1, m1, _) := Turn(cs, s, m);
      s1.state == ReadingResponse && |s1.buf| < 2 && (s1.buf == "" || |CString(m1, 2)| <= 1)
  {
    hide Owned, CString, Moved, EndLine;
    CStringLater(m, 0, 1);
    MovedIs(m, 1);
    CStringAt(m, 0);
    var m1 := Moved(m, 1);
    if |s.buf| == 2 { NulBounds(m1, 2, 2); }
  }

  lemma {:induction false} TailEnds(cs: seq<UrcClass>, s: Session, m: string)
    requires Owned(cs, s) && Holds(s, m) && Tail(s, m)
    ensures Ends(cs, s, m)
    decreases |s.buf|
  {
    hide Owned, Holds, Tail, Turn, Ends;
    if s.state == ReadingResponse { TailResponseRests(cs, s, m); }
    if Turn(cs, s, m).2 == 0 {
      RestEnds(cs, s, m);
    } else {
      TailEchoTurn(cs, s, m);
      TailEnds(cs, Turn(cs, s, m).0, Turn(cs, s, m).1);
      NextEnds(cs, s, m, (s, m));
    }
  }

  // ---------------------------------------------------------------- when it ends

  /** After a short prompt there is less behind the fourth character, or little left. */
  lemma ShortPromptNext(cs: seq<UrcClass>, s: Session, m: string)
    requires Owned(cs, s) && Holds(s, m) && ShortPrompt(s) && !Stuck(s, m)
    ensures Turn(cs, s, m).2 == 4
    ensures |CString(Turn(cs, s, m).1, 4)| < |CString(m, 4)| || Tail(Turn(cs, s, m).0, Turn(cs, s, m).1)
  {
    hide CString, Moved, Turn, PlainTurn, EndLine;
    PromptTurn(cs, s, m);
    DropBeyond(m);
    PromptAnswered(cs, s);
  }

  /** A prompt is answered with the PDU, or with Escape. */
  lemma PromptAnswered(cs: seq<UrcClass>, s: Session)
    requires Owned(cs, s) && s.state == ReadingResponse && PromptAt(s.buf, ResponseBegin(s.buf))
    ensures s.current.Some? && s.current.value < |s.reqs|
    ensures Match(cs, s).0.state
         == if s.reqs[s.current.value].pdu.Some? then AwaitingSmsEcho else ReadingResponse
  {
    hide EndLine;
  }

  lemma ShortLineIsNoCode(line: string)
    requires |line| < 2
    ensures FinalCode(line) == RESP_UNKNOWN
  {
  }

  /** A line that ends behind the NUL is at most one character long, and no result code. */
  lemma LoneLine(cs: seq<UrcClass>, s: Session, m: string, e: nat)
    requires Owned(cs, s) && Holds(s, m) && LoneCharacter(s) && LineEnd(m) == Some(e)
    ensures Turn(cs, s, m).2 == e + 2
    ensures Turn(cs, s, m).0.state == ReadingResponse && Turn(cs, s, m).0.buf == CString(m[e := '\0'], e + 2)
    ensures Turn(cs, s, m).1 == Moved(m[e := '\0'], e + 2)
  {
    hide Owned, CString, Moved, FinalCode, IsMemory;
    var k, w := ResponseBegin(s.buf), m[e := '\0'];
    CStringLater(m, 0, k);
    SameCString(m, w, k);
    ShortLineIsNoCode(CString(w, k));
  }

  lemma LineEndIs(m: string, e: nat)
    requires IsMemory(m) && |m| == BUFFER_SIZE && LineEnd(m) == Some(e)
    ensures 2 <= e <= |CString(m, 2)|
  {
    hide CString;
  }

  lemma LoneNext(cs: seq<UrcClass>, s: Session, m: string)
    requires Owned(cs, s) && Holds(s, m) && LoneCharacter(s) && LineEnd(m).Some?
    ensures var (s1, m1, n) := Turn(cs, s, m);
      && n != 0 && |CString(m1, 4)| <= |CString(m, 4)|
      && (|CString(m1, 4)| < |CString(m, 4)| || ShortPrompt(s1) || Tail(s1, m1))
  {
    hide Owned, CString, Moved, Turn, LineEnd;
    var e := LineEnd(m).value;
    LineEndIs(m, e);
    LoneLine(cs, s, m, e);
    DropLine(m, e);
    EndedIsShorter(m, e, 4);
  }

  ghost predicate NeverStuck(cs: seq<UrcClass>, s: Session, m: string)
    requires Owned(cs, s) && Holds(s, m)
  {
    forall k: nat :: !Stuck(Turned(cs, s, m, k).0, Turned(cs, s, m, k).1)
  }

  lemma NeverNext(cs: seq<UrcClass>, s: Session, m: string)
    requires Owned(cs, s) && Holds(s, m) && NeverStuck(cs, s, m)
    ensures !Stuck(s, m) && NeverStuck(cs, Turn(cs, s, m).0, Turn(cs, s, m).1)
  {
    hide Owned, Holds, Turn, Stuck;
    var (s1, m1, _) := Turn(cs, s, m);
    assert Turned(cs, s, m, 0) == (s, m);
    forall k: nat ensures !Stuck(Turned(cs, s1, m1, k).0, Turned(cs, s1, m1, k).1) {
      assert Turned(cs, s, m, k + 1) == Turned(cs, s1, m1, k);
    }
  }

  lemma {:induction false} EndsUnlessStuck(cs: seq<UrcClass>, s: Session, m: string)
    requires Owned(cs, s) && Holds(s, m) && NeverStuck(cs, s, m)
    ensures Ends(cs, s, m)
    decreases |CString(m, 4)|, |s.buf|
  {
    hide Owned, CString, Turn, Ends, NeverStuck, Stuck, Tail, ShortPrompt, LineEnd;
    var (s1, m1, n) := Turn(cs, s, m);
    NeverNext(cs, s, m);
    if n == 0 {
      RestEnds(cs, s, m);
    } else {
      NextEnds(cs, s, m, (s, m));
      if n <= |s.buf| {
        TurnInside(cs, s, m);
        EndsUnlessStuck(cs, s1, m1);
      } else {
        TurnBeyond(cs, s, m);
        if ShortPrompt(s) {
          ShortPromptNext(cs, s, m);
          if Tail(s1, m1) { TailEnds(cs, s1, m1); } else { EndsUnlessStuck(cs, s1, m1); }
        } else {
          LoneNext(cs, s, m);
          EndsAfterLone(cs, s, m);
        }
      }
    }
  }

  lemma {:induction false} EndsAfterLone(cs: seq<UrcClass>, s: Session, m: string)
    requires Owned(cs, s) && Holds(s, m) && NeverStuck(cs, Turn(cs, s, m).0, Turn(cs, s, m).1)
    requires var (s1, m1, n) := Turn(cs, s, m);
      && |CString(m1, 4)| <= |CString(m, 4)|
      && (|CString(m1, 4)| < |CString(m, 4)| || ShortPrompt(s1) || Tail(s1, m1))
    ensures Ends(cs, Turn(cs, s, m).0, Turn(cs, s, m).1)
    decreases |CString(m, 4)|, 0
  {
    hide Owned, CString, Turn, Ends, NeverStuck, Stuck, Tail, ShortPrompt;
    var (s1, m1, _) := Turn(cs, s, m);
    if Tail(s1, m1) {
      TailEnds(cs, s1, m1);
    } else if |CString(m1, 4)| < |CString(m, 4)| {
      EndsUnlessStuck(cs, s1, m1);
    } else {
      var (s2, m2, _) := Turn(cs, s1, m1);
      NeverNext(cs, s1, m1);
      ShortPromptNext(cs, s1, m1);
      NextEnds(cs, s1, m1, (s1, m1));
      if Tail(s2, m2) { TailEnds(cs, s2, m2); } else { EndsUnlessStuck(cs, s2, m2); }
    }
  }

  /** The receive loop ends exactly when it never comes to a short prompt, for a request without a PDU, in front of
      another one. */
  lemma EndsExactly(cs: seq<UrcClass>, s: Session, m: string)
    requires Owned(cs, s) && Holds(s, m)
    ensures Ends(cs, s, m) <==> NeverStuck(cs, s, m)
  {
    hide Owned, Holds, Stuck, Turn;
    if NeverStuck(cs, s, m) {
      EndsUnlessStuck(cs, s, m);
    } else {
      var j: nat :| Stuck(Turned(cs, s, m, j).0, Turned(cs, s, m, j).1);
      forall k: nat ensures !Rests(cs, Turned(cs, s, m, k)) { StuckFrom(cs, s, m, j, k); }
    }
  }

  lemma StuckFrom(cs: seq<UrcClass>, s: Session, m: string, j: nat, k: nat)
    requires Owned(cs, s) && Holds(s, m) && Stuck(Turned(cs, s, m, j).0, Turned(cs, s, m, j).1)
    ensures !Rests(cs, Turned(cs, s, m, k))
  {
    hide Owned, Holds, Stuck, Turn, Turned, Rests;
    var (t, w) := Turned(cs, s, m, j);
    if k >= j {
      TurnedLater(cs, s, m, j, k - j);
      StuckForever(cs, t, w, k - j);
    } else {
      StuckForever(cs, t, w, 0);
      TurnedLater(cs, s, m, j, 0);
      if Rests(cs, Turned(cs, s, m, k)) { RestedLater(cs, s, m, k, j); }
    }
  }

  // ---------------------------------------------------------------- a run that gets there

  /** The echo of a command of three or four characters, and a prompt behind it. */
  lemma PromptBehindEcho(c: string, m: string)
    requires 3 <= |c| <= 4 && '\0' !in c && m == Stored(Zeros(), c + "\r> ")
    ensures IsMemory(m) && |m| == BUFFER_SIZE && CString(m, 0) == c + "\r> " && CString(m, |c| + 1) == "> "
    ensures var v := Moved(m, |c| + 1);
      IsMemory(v) && CString(v, 0) == "> " && CString(v, 4) == if |c| == 3 then "> " else "\r> "
  {
    hide CString, Moved;
    var b := c + "\r> ";
    FirstRead(b);
    CStringLater(m, 0, |c| + 1);
    CStringLater(m, 0, 4);
    assert b[|c| + 1..] == "> ";
    assert b[4..] == if |c| == 3 then "> " else "\r> ";
    MovedLater(m, |c| + 1);
    MovedIs(m, |c| + 1);
  }

  /** When a modem answers the echo of such a command at once with a prompt that nobody asked for, without CR LF, the
      receive loop never ends. */
  lemma EndlessReached(cs: seq<UrcClass>, c: string)
    requires 3 <= |c| <= 4 && '\0' !in c
    ensures var es := [Submitted(c, [], 0)] + ([Served] + []);
      Happens(cs, Opened(), es) && Run(cs, Opened(), es) == Sent(c)
    ensures var b := c + "\r> "; var m := Stored(Zeros(), b);
      Owned(cs, Fed(Sent(c), b)) && Holds(Fed(Sent(c), b), m) && !Ends(cs, Fed(Sent(c), b), m)
  {
    hide CString, Stored, Moved, Turn, Match;
    SentIs(cs, c);
    SentReached(cs, c, []);
    var b := c + "\r> ";
    var s, m := Fed(Sent(c), b), Stored(Zeros(), b);
    FedOwned(cs, Sent(c), b);
    assert s.buf == b;
    PromptBehindEcho(c, m);
    assert c + "\r" + "> " == b;
    EchoTurn(cs, c, "> ", m);
    assert Turned(cs, s, m, 0) == (s, m);
    assert Turned(cs, s, m, 1) == (Turn(cs, s, m).0, Turn(cs, s, m).1);
    StuckBehindEcho(c, Turn(cs, s, m).0, Turn(cs, s, m).1);
    EndsExactly(cs, s, m);
  }

  lemma StuckBehindEcho(c: string, t: Session, v: string)
    requires t == Echoed(c).(buf := "> ") && IsMemory(v) && |v| == BUFFER_SIZE && CString(v, 0) == "> "
    requires CString(v, 4) == "> " || CString(v, 4) == "\r> "
    ensures Stuck(t, v)
  {
    hide CString;
  }
}
