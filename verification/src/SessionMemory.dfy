/**
 The receive loop on its buffer as memory.  Two steps of it can see behind the NUL: a prompt drops four characters even
 where fewer are there, and the search for the end of a response line starts at the third character even where there
 is only one.  Elsewhere the loop does what Session says, whatever is left there.
 */
module SessionMemory {
  import opened Text
  import opened Memory
  import opened Session
  import opened SessionChunking
  import opened SessionPrompt

  ghost predicate Holds(s: Session, m: string)
  {
    IsMemory(m) && |m| == BUFFER_SIZE && s.buf == CString(m, 0)
  }

  /** strstr(buf + 2, "\r\n"), as a place in the buffer. */
  function LineEnd(m: string): (r: Option<nat>)
    requires IsMemory(m) && |m| == BUFFER_SIZE
    ensures r.Some? ==> 2 <= r.value && r.value + 2 < BUFFER_SIZE
  {
    CStringAt(m, 2);
    match FindCrLf(CString(m, 2), 0)
    case None => None
    case Some(e) => Some(e + 2)
  }

  /** strstr() itself. */
  method FindLineEnd(buf: array<char>) returns (r: Option<nat>)
    requires IsMemory(buf[..]) && buf.Length == BUFFER_SIZE
    ensures r == LineEnd(buf[..])
  {
    ghost var t := CString(buf[..], 2);
    CStringAt(buf[..], 2);
    assert forall k :: 0 <= k < |t| ==> t[k] == buf[2 + k];
    var i := 2;
    while buf[i] != '\0'
      invariant 2 <= i <= 2 + |t|
      invariant FindCrLf(t, 0) == FindCrLf(t, i - 2)
      decreases 2 + |t| - i
    {
      if buf[i] == '\r' && buf[i + 1] == '\n' { return Some(i); }
      i := i + 1;
    }
    return None;
  }

  // ---------------------------------------------------------------- one turn of the loop

  /** A response line, ended in place at e, and what is to be dropped. */
  function TakeLineAt(cs: seq<UrcClass>, s: Session, m: string, e: nat): (r: (Session, string, nat))
    requires Owned(cs, s) && s.state == ReadingResponse && Holds(s, m) && e + 2 < BUFFER_SIZE
    ensures Owned(cs, r.0) && r.0.buf == s.buf && r.2 < BUFFER_SIZE && |r.1| == BUFFER_SIZE && IsMemory(r.1)
    ensures LiveWithInput(r.0.state)
  {
    EndedIs(m, e);
    hide Owned, CString, IsMemory;
    (EndLine(cs, s, CString(m[e := '\0'], ResponseBegin(s.buf))), m[e := '\0'], e + 2)
  }

  /** vgsm_match_response(). */
  function MatchResponseAt(cs: seq<UrcClass>, s: Session, m: string): (r: (Session, string, nat))
    requires Owned(cs, s) && s.state == ReadingResponse && Holds(s, m)
    ensures Owned(cs, r.0) && r.0.buf == s.buf && r.2 < BUFFER_SIZE && |r.1| == BUFFER_SIZE && IsMemory(r.1)
    ensures r.2 > 0 ==> LiveWithInput(r.0.state)
  {
    if s.buf == "" || s.buf == "\r" then (s, m, 0)
    else if ScanResponse(s.buf) == Prompt then (MatchResponse(cs, s).0, m, 4)
    else match LineEnd(m)
      case None => (s, m, 0)
      case Some(e) => TakeLineAt(cs, s, m, e)
  }

  /** Whether an unsolicited line is ended in place. */
  predicate EndsUrc(s: Session)
    requires s.state == AwaitingEcho ==> s.current.Some? && s.current.value < |s.reqs|
  {
    match s.state
    case Idle => ScanUrc(s.buf).UrcLine?
    case AwaitingEcho => MatchEcho(s.buf, s.reqs[s.current.value].text) < 0 && ScanUrc(s.buf).UrcLine?
    case ReadingUrc | AwaitingEchoReadingUrc => FindCrLf(s.buf, 0).Some?
    case _ => false
  }

  lemma MatchInside(cs: seq<UrcClass>, s: Session)
    requires Owned(cs, s) && s.state != ReadingResponse
    ensures Match(cs, s).1 <= |s.buf|
    ensures EndsUrc(s) ==> Match(cs, s).1 >= 2
  {
    hide StartUrc, MoreUrc, UrcBegin;
  }

  function MatchAt(cs: seq<UrcClass>, s: Session, m: string): (r: (Session, string, nat))
    requires Owned(cs, s) && Holds(s, m)
    ensures Owned(cs, r.0) && r.0.buf == s.buf && r.2 < BUFFER_SIZE && |r.1| == BUFFER_SIZE && IsMemory(r.1)
    ensures r.2 > 0 ==> LiveWithInput(r.0.state)
  {
    if s.state == ReadingResponse then MatchResponseAt(cs, s, m)
    else
      MatchInside(cs, s);
      var (s1, n) := Match(cs, s);
      if EndsUrc(s) then
        EndedIs(m, n - 2);
        (s1, m[n - 2 := '\0'], n)
      else (s1, m, n)
  }

  lemma OwnedWith(cs: seq<UrcClass>, s: Session, b: string)
    requires Owned(cs, s) && LiveWithInput(s.state) && |b| < BUFFER_SIZE && '\0' !in b
    ensures Owned(cs, s.(buf := b))
  {
  }

  /** One turn of vgsm_comm_receive(): a match, and the memmove() if it asked for one. */
  function Turn(cs: seq<UrcClass>, s: Session, m: string): (r: (Session, string, nat))
    requires Owned(cs, s) && Holds(s, m)
    ensures Owned(cs, r.0) && Holds(r.0, r.1)
    ensures r.2 == 0 ==> r.0 == s && r.1 == m
    ensures r.2 > 0 ==> LiveWithInput(r.0.state)
  {
    var (s1, w, n) := MatchAt(cs, s, m);
    if n == 0 then (s, m, 0)
    else
      MovedIs(w, n);
      OwnedWith(cs, s1, CString(w, n));
      (s1.(buf := CString(w, n)), Moved(w, n), n)
  }

  /** The same turn as Session has it. */
  function PlainTurn(cs: seq<UrcClass>, s: Session): (Session, nat)
    requires Owned(cs, s)
  {
    var (s1, n) := Match(cs, s);
    (if n == 0 then s else Pulled(s1, n), n)
  }

  /** One character of a response, behind which the search for the line's end starts. */
  predicate LoneCharacter(s: Session) { s.state == ReadingResponse && |s.buf| == 1 && s.buf != "\r" }

  /** A turn that sees what is behind the NUL: a character that a short prompt drops, or the end of a line. */
  ghost predicate Shows(s: Session, m: string)
    requires Holds(s, m)
  {
    (ShortPrompt(s) && m[4] != '\0') || (LoneCharacter(s) && LineEnd(m).Some?)
  }

  lemma EmptyCString(m: string, i: nat)
    requires IsMemory(m) && i < |m|
    ensures CString(m, i) == "" <==> m[i] == '\0'
  {
    CStringAt(m, i);
    if m[i] == '\0' { CStringIs(m, i, ""); }
  }

  /** What a prompt leaves is what Session leaves, if there are four characters or none behind them. */
  lemma PromptTurn(cs: seq<UrcClass>, s: Session, m: string)
    requires Owned(cs, s) && Holds(s, m) && s.state == ReadingResponse && PromptAt(s.buf, ResponseBegin(s.buf))
    ensures Match(cs, s).1 == 4 && Turn(cs, s, m).2 == 4
    ensures Turn(cs, s, m).0 == Match(cs, s).0.(buf := CString(m, 4)) && Turn(cs, s, m).1 == Moved(m, 4)
    ensures (Turn(cs, s, m).0, 4) == PlainTurn(cs, s) <==> !Shows(s, m)
  {
    hide Owned, CString, EndLine, LineEnd;
    EmptyCString(m, 4);
    if |s.buf| >= 4 { CStringLater(m, 0, 4); }
  }

  lemma LineEndInside(s: Session, m: string)
    requires Holds(s, m) && |s.buf| >= 2
    ensures LineEnd(m) == FindCrLf(s.buf, 2)
  {
    hide CString, FindCrLf;
    CStringLater(m, 0, 2);
    FindCrLfShifted(s.buf, 2);
  }

  lemma FindCrLfShifted(b: string, k: nat)
    requires k <= |b|
    ensures FindCrLf(b, k) == match FindCrLf(b[k..], 0) case None => None case Some(e) => Some(e + k)
  {
    var r, q := FindCrLf(b, k), FindCrLf(b[k..], 0);
    if r.Some? { assert CrLfAt(b[k..], r.value - k); }
    if q.Some? { assert CrLfAt(b, q.value + k); }
  }

  /** A line that is in the string is taken as Session takes it. */
  lemma LineTurn(cs: seq<UrcClass>, s: Session, m: string)
    requires Owned(cs, s) && Holds(s, m) && s.state == ReadingResponse && |s.buf| >= 2
    requires ScanResponse(s.buf) != Prompt
    ensures (Turn(cs, s, m).0, Turn(cs, s, m).2) == PlainTurn(cs, s)
    ensures Turn(cs, s, m).2 <= |s.buf|
  {
    hide Owned, CString, EndLine, LineEnd, Moved, IsMemory, FindCrLf, TakeLineAt;
    LineEndInside(s, m);
    var r := FindCrLf(s.buf, 2);
    if r.Some? { LineInside(cs, s, m, r.value); }
  }

  lemma LineInside(cs: seq<UrcClass>, s: Session, m: string, e: nat)
    requires Owned(cs, s) && Holds(s, m) && s.state == ReadingResponse
    requires 2 <= e && e + 2 <= |s.buf|
    ensures e + 2 < BUFFER_SIZE
    ensures TakeLineAt(cs, s, m, e) == (EndLine(cs, s, s.buf[ResponseBegin(s.buf)..e]), m[e := '\0'], e + 2)
    ensures CString(m[e := '\0'], e + 2) == s.buf[e + 2..]
  {
    hide Owned, CString, EndLine, UpToNul;
    var k := ResponseBegin(s.buf);
    CStringAt(m, 0);
    CStringLater(m, 0, k);
    CStringLater(m, 0, e + 2);
    EndedIs(m, e);
    assert s.buf == m[0..|s.buf|];
    assert m[k..e] == s.buf[k..e];
  }

  /** With one character there, a line whose end is behind the NUL is taken where Session waits. */
  lemma LoneTurn(cs: seq<UrcClass>, s: Session, m: string)
    requires Owned(cs, s) && Holds(s, m) && LoneCharacter(s)
    ensures PlainTurn(cs, s) == (s, 0)
    ensures Turn(cs, s, m).2 == match LineEnd(m) case None => 0 case Some(e) => e + 2
  {
    hide Owned, CString, EndLine;
    assert ScanResponse(s.buf) == Partial;
  }

  lemma OtherTurn(cs: seq<UrcClass>, s: Session, m: string)
    requires Owned(cs, s) && Holds(s, m) && s.state != ReadingResponse
    ensures (Turn(cs, s, m).0, Turn(cs, s, m).2) == PlainTurn(cs, s)
    ensures Turn(cs, s, m).2 <= |s.buf|
  {
    hide CString, Match;
    MatchInside(cs, s);
    var n := Match(cs, s).1;
    CStringLater(m, 0, n);
    if EndsUrc(s) { EndedIs(m, n - 2); }
  }

  /** A turn is the turn that Session has, unless it sees behind the NUL. */
  lemma TurnExact(cs: seq<UrcClass>, s: Session, m: string)
    requires Owned(cs, s) && Holds(s, m)
    ensures (Turn(cs, s, m).0, Turn(cs, s, m).2) == PlainTurn(cs, s) <==> !Shows(s, m)
  {
    hide Owned, Turn, PlainTurn, LineEnd;
    if s.state != ReadingResponse {
      OtherTurn(cs, s, m);
    } else if s.buf == "" || s.buf == "\r" {
      EmptyTurn(cs, s, m);
    } else if ScanResponse(s.buf) == Prompt {
      PromptTurn(cs, s, m);
    } else if |s.buf| >= 2 {
      LineTurn(cs, s, m);
    } else {
      LoneTurn(cs, s, m);
    }
  }

  lemma EmptyTurn(cs: seq<UrcClass>, s: Session, m: string)
    requires Owned(cs, s) && Holds(s, m) && s.state == ReadingResponse && (s.buf == "" || s.buf == "\r")
    ensures Turn(cs, s, m) == (s, m, 0) && PlainTurn(cs, s) == (s, 0)
  {
    hide Owned, CString, EndLine;
    assert ScanResponse(s.buf) == Partial;
  }

  // ---------------------------------------------------------------- the loop

  /** The loop after k turns; it stays where a turn drops nothing. */
  ghost function Turned(cs: seq<UrcClass>, s: Session, m: string, k: nat): (r: (Session, string))
    requires Owned(cs, s) && Holds(s, m)
    ensures Owned(cs, r.0) && Holds(r.0, r.1)
    decreases k
  {
    if k == 0 then (s, m) else Turned(cs, Turn(cs, s, m).0, Turn(cs, s, m).1, k - 1)
  }

  ghost predicate Rests(cs: seq<UrcClass>, c: (Session, string))
    requires Owned(cs, c.0) && Holds(c.0, c.1)
  {
    Turn(cs, c.0, c.1).2 == 0
  }

  /** The loop ends, with session and memory r. */
  ghost predicate EndsIn(cs: seq<UrcClass>, s: Session, m: string, r: (Session, string))
    requires Owned(cs, s) && Holds(s, m)
  {
    exists k: nat :: Turned(cs, s, m, k) == r && Rests(cs, Turned(cs, s, m, k))
  }

  ghost predicate Ends(cs: seq<UrcClass>, s: Session, m: string)
    requires Owned(cs, s) && Holds(s, m)
  {
    exists k: nat :: Rests(cs, Turned(cs, s, m, k))
  }

  lemma NextEnds(cs: seq<UrcClass>, s: Session, m: string, r: (Session, string))
    requires Owned(cs, s) && Holds(s, m)
    ensures EndsIn(cs, Turn(cs, s, m).0, Turn(cs, s, m).1, r) ==> EndsIn(cs, s, m, r)
    ensures Ends(cs, Turn(cs, s, m).0, Turn(cs, s, m).1) ==> Ends(cs, s, m)
  {
    hide Owned, Holds, Turn;
    var (s1, m1, _) := Turn(cs, s, m);
    if EndsIn(cs, s1, m1, r) {
      var k: nat :| Turned(cs, s1, m1, k) == r && Rests(cs, Turned(cs, s1, m1, k));
      assert Turned(cs, s, m, k + 1) == r;
    }
    if Ends(cs, s1, m1) {
      var k: nat :| Rests(cs, Turned(cs, s1, m1, k));
      assert Turned(cs, s, m, k + 1) == Turned(cs, s1, m1, k);
    }
  }

  lemma RestEnds(cs: seq<UrcClass>, s: Session, m: string)
    requires Owned(cs, s) && Holds(s, m) && Rests(cs, (s, m))
    ensures EndsIn(cs, s, m, (s, m)) && Ends(cs, s, m)
  {
    hide Owned, Holds, Rests;
    assert Turned(cs, s, m, 0) == (s, m);
  }

  lemma {:induction false} RestStays(cs: seq<UrcClass>, s: Session, m: string, k: nat)
    requires Owned(cs, s) && Holds(s, m) && Rests(cs, (s, m))
    ensures Turned(cs, s, m, k) == (s, m)
    decreases k
  {
    hide Owned, Holds;
    if k > 0 { RestStays(cs, s, m, k - 1); }
  }

  lemma {:induction false} TurnedLater(cs: seq<UrcClass>, s: Session, m: string, j: nat, k: nat)
    requires Owned(cs, s) && Holds(s, m)
    ensures Turned(cs, s, m, j + k) == Turned(cs, Turned(cs, s, m, j).0, Turned(cs, s, m, j).1, k)
    decreases j
  {
    hide Owned, Holds, Turn;
    if j > 0 { TurnedLater(cs, Turn(cs, s, m).0, Turn(cs, s, m).1, j - 1, k); }
  }

  lemma RestedLater(cs: seq<UrcClass>, s: Session, m: string, j: nat, k: nat)
    requires Owned(cs, s) && Holds(s, m) && Rests(cs, Turned(cs, s, m, j)) && j <= k
    ensures Turned(cs, s, m, k) == Turned(cs, s, m, j)
  {
    hide Owned, Holds, Rests, Turned;
    TurnedLater(cs, s, m, j, k - j);
    RestStays(cs, Turned(cs, s, m, j).0, Turned(cs, s, m, j).1, k - j);
  }

  /** It ends in one way only. */
  lemma EndsOnce(cs: seq<UrcClass>, s: Session, m: string, r: (Session, string), q: (Session, string))
    requires Owned(cs, s) && Holds(s, m) && EndsIn(cs, s, m, r) && EndsIn(cs, s, m, q)
    ensures r == q
  {
    hide Owned, Holds, Rests, Turned;
    var j: nat :| Turned(cs, s, m, j) == r && Rests(cs, Turned(cs, s, m, j));
    var k: nat :| Turned(cs, s, m, k) == q && Rests(cs, Turned(cs, s, m, k));
    if j <= k { RestedLater(cs, s, m, j, k); } else { RestedLater(cs, s, m, k, j); }
  }

  // ---------------------------------------------------------------- where the memory does not show

  lemma PlainTurnShrinks(cs: seq<UrcClass>, s: Session)
    requires Owned(cs, s) && PlainTurn(cs, s).1 != 0
    ensures |PlainTurn(cs, s).0.buf| < |s.buf|
  {
    hide Owned, Match;
  }

  /** No turn of the loop sees what is behind the NUL. */
  ghost predicate Quiet(cs: seq<UrcClass>, s: Session, m: string)
    requires Owned(cs, s) && Holds(s, m)
    decreases |s.buf|
  {
    !Shows(s, m)
    && (TurnExact(cs, s, m);
        Turn(cs, s, m).2 == 0
        || (PlainTurnShrinks(cs, s);
            Quiet(cs, Turn(cs, s, m).0, Turn(cs, s, m).1)))
  }

  /** Then it ends as Session has it. */
  lemma {:induction false} QuietDrains(cs: seq<UrcClass>, s: Session, m: string) returns (w: string)
    requires Owned(cs, s) && Holds(s, m) && Quiet(cs, s, m)
    ensures Holds(Drain(cs, s), w) && EndsIn(cs, s, m, (Drain(cs, s), w))
    decreases |s.buf|
  {
    hide Owned, Holds, Turn, Match, Shows, EndsIn;
    TurnExact(cs, s, m);
    if Turn(cs, s, m).2 == 0 {
      DrainStops(cs, s);
      RestEnds(cs, s, m);
      w := m;
    } else {
      PlainTurnShrinks(cs, s);
      w := QuietDrains(cs, Turn(cs, s, m).0, Turn(cs, s, m).1);
      NextEnds(cs, s, m, (Drain(cs, s), w));
    }
  }

  /** The string alone tells that no turn looks behind the NUL. */
  ghost predicate Inside(cs: seq<UrcClass>, s: Session)
    requires Owned(cs, s)
    decreases |s.buf|
  {
    var (s1, n) := Match(cs, s);
    !ShortPrompt(s) && !LoneCharacter(s) && (n == 0 || Inside(cs, Pulled(s1, n)))
  }

  lemma {:induction false} InsideIsQuiet(cs: seq<UrcClass>, s: Session, m: string)
    requires Owned(cs, s) && Holds(s, m) && Inside(cs, s)
    ensures Quiet(cs, s, m)
    decreases |s.buf|
  {
    hide Owned, Holds, Turn, Match, ShortPrompt, LineEnd;
    TurnExact(cs, s, m);
    if Turn(cs, s, m).2 != 0 {
      PlainTurnShrinks(cs, s);
      InsideIsQuiet(cs, Turn(cs, s, m).0, Turn(cs, s, m).1);
    }
  }

  // ---------------------------------------------------------------- the memory of a new session

  function Zeros(): (m: string)
    ensures IsMemory(m) && |m| == BUFFER_SIZE && CString(m, 0) == ""
  {
    var m := seq(BUFFER_SIZE, _ => '\0');
    EmptyCString(m, 0);
    m
  }

  /** The memory that was zero, after one read of what fits. */
  lemma FirstRead(bytes: string)
    requires |bytes| < BUFFER_SIZE && '\0' !in bytes
    ensures var m := Stored(Zeros(), bytes);
      && IsMemory(m) && |m| == BUFFER_SIZE && CString(m, 0) == bytes
      && m[..|bytes|] == bytes && forall j :: |bytes| <= j < BUFFER_SIZE ==> m[j] == '\0'
  {
    hide CString, UpToNul;
    StoredIs(Zeros(), bytes);
    StoredAt(Zeros(), bytes, 0);
  }

  /** The turn that takes the echo of its first command. */
  lemma EchoTurn(cs: seq<UrcClass>, c: string, rest: string, m: string)
    requires IsCommand(c) && Owned(cs, Sent(c)) && Owned(cs, Fed(Sent(c), c + "\r" + rest))
    requires Holds(Fed(Sent(c), c + "\r" + rest), m)
    ensures |c| + 1 < BUFFER_SIZE
    ensures Turn(cs, Fed(Sent(c), c + "\r" + rest), m)
         == (Echoed(c).(buf := CString(m, |c| + 1)), Moved(m, |c| + 1), |c| + 1)
  {
    hide Owned, CString, Moved, Match, MatchAt, EndsUrc, MatchEcho;
    EchoMatched(cs, c, rest);
    EchoEndsNoUrc(c, rest);
    PlainMatchAt(cs, Fed(Sent(c), c + "\r" + rest), m);
  }

  lemma EchoEndsNoUrc(c: string, rest: string)
    requires MatchEcho(c + "\r" + rest, c + "\r") == |c| + 1
    ensures !EndsUrc(Fed(Sent(c), c + "\r" + rest))
  {
    hide MatchEcho, ScanUrc;
    assert Fed(Sent(c), c + "\r" + rest).buf == c + "\r" + rest;
  }

  lemma PlainMatchAt(cs: seq<UrcClass>, s: Session, m: string)
    requires Owned(cs, s) && Holds(s, m) && s.state != ReadingResponse && !EndsUrc(s)
    ensures MatchAt(cs, s, m) == (Match(cs, s).0, m, Match(cs, s).1)
  {
    hide CString, Match, EndsUrc, IsMemory;
  }
}
