/** A run in which what an earlier read left behind the NUL decides what a response line is. */
module SessionResidue {
  import opened Text
  import opened Memory
  import opened Session
  import opened SessionChunking
  import opened SessionMemory
  import opened SessionPrompt

  /** The session after the echo, with an empty line in its response. */
  function Blank(): Session
  {
    var s := Echoed(COMMAND);
    s.(reqs := [s.reqs[0].(lines := [""])])
  }

  /** The echo and a line feed, in one read of zeroed memory: the echo is dropped, not erased. */
  lemma EchoDropped(m: string)
    requires m == Stored(Zeros(), "AT\r\n")
    ensures IsMemory(m) && |m| == BUFFER_SIZE && CString(m, 0) == "AT\r\n" && CString(m, 3) == "\n"
    ensures var v := Moved(m, 3);
      && IsMemory(v) && CString(v, 0) == "\n" && CString(v, 2) == "\r\n" && v[1] == '\0' && v[4] == '\0'
  {
    hide CString, Moved;
    FirstRead("AT\r\n");
    CStringLater(m, 0, 3);
    assert "AT\r\n"[3..] == "\n";
    MovedIs(m, 3);
    var v := Moved(m, 3);
    assert m[..4][2] == '\r' && m[..4][3] == '\n';
    assert v[2..4] == "\r\n";
    CStringIs(v, 2, "\r\n");
  }

  /** The line feed is then taken for an empty line: its end is found in what the echo left. */
  lemma BlankTaken(cs: seq<UrcClass>, v: string)
    requires Owned(cs, Echoed(COMMAND).(buf := "\n")) && IsMemory(v) && |v| == BUFFER_SIZE
    requires CString(v, 0) == "\n" && CString(v, 2) == "\r\n" && v[1] == '\0' && v[4] == '\0'
    ensures var (s1, v1, n) := Turn(cs, Echoed(COMMAND).(buf := "\n"), v);
      n == 4 && s1 == Blank() && CString(v1, 0) == ""
  {
    hide Owned, CString, Moved;
    var s, w := Echoed(COMMAND).(buf := "\n"), v[2 := '\0'];
    assert CrLfAt("\r\n", 0) && LineEnd(v) == Some(2);
    EmptyCString(w, 1);
    EmptyCString(w, 4);
    MovedIs(w, 4);
    assert ResponseBegin("\n") == 1;
    assert s.reqs[0].lines + [""] == [""];
  }

  lemma BlankEnds(cs: seq<UrcClass>, s: Session, v: string) returns (w: string)
    requires s == Echoed(COMMAND).(buf := "\n") && Owned(cs, s) && Holds(s, v)
    requires CString(v, 2) == "\r\n" && v[1] == '\0' && v[4] == '\0'
    ensures EndsIn(cs, s, v, (Blank(), w))
  {
    hide Owned, CString, Moved, Turn, EndsIn;
    BlankTaken(cs, v);
    var (s1, v1, _) := Turn(cs, s, v);
    EmptyTurn(cs, s1, v1);
    RestEnds(cs, s1, v1);
    w := v1;
    NextEnds(cs, s, v, (Blank(), w));
  }

  lemma OneReadEnds(cs: seq<UrcClass>) returns (w: string)
    ensures var b := ECHO + "\n"; var m := Stored(Zeros(), b); var s := Fed(Sent(COMMAND), b);
      Owned(cs, s) && Holds(s, m) && EndsIn(cs, s, m, (Blank(), w))
  {
    hide CString, Stored, Moved, Turn, Match, EndsIn, Blank, Echoed, UpToNul;
    SentIs(cs, COMMAND);
    var b := ECHO + "\n";
    assert b == "AT\r\n" == COMMAND + "\r" + "\n";
    var s, m := Fed(Sent(COMMAND), b), Stored(Zeros(), b);
    FedOwned(cs, Sent(COMMAND), b);
    EchoDropped(m);
    EchoTurn(cs, COMMAND, "\n", m);
    var (s1, m1, _) := Turn(cs, s, m);
    w := BlankEnds(cs, s1, m1);
    NextEnds(cs, s, m, (Blank(), w));
  }

  lemma FirstReadEnds(cs: seq<UrcClass>) returns (w: string)
    ensures var m := Stored(Zeros(), ECHO); var s := Fed(Sent(COMMAND), ECHO);
      Owned(cs, s) && Holds(s, m) && EndsIn(cs, s, m, (Echoed(COMMAND), w))
    ensures Owned(cs, Echoed(COMMAND)) && Holds(Echoed(COMMAND), w) && w[3] == '\0'
  {
    hide Owned, CString, Stored, Moved, Turn, Match, EndsIn;
    SentIs(cs, COMMAND);
    var s, m := Fed(Sent(COMMAND), ECHO), Stored(Zeros(), ECHO);
    FedOwned(cs, Sent(COMMAND), ECHO);
    FirstRead(ECHO);
    CStringLater(m, 0, 3);
    assert COMMAND + "\r" + "" == ECHO;
    EchoTurn(cs, COMMAND, "", m);
    MovedIs(m, 3);
    w := Moved(m, 3);
    EmptyTurn(cs, Echoed(COMMAND), w);
    RestEnds(cs, Echoed(COMMAND), w);
    NextEnds(cs, s, m, (Echoed(COMMAND), w));
  }

  lemma SecondReadRests(cs: seq<UrcClass>, w: string)
    requires Owned(cs, Echoed(COMMAND)) && Holds(Echoed(COMMAND), w) && w[3] == '\0'
    ensures var m := Stored(w, "\n"); var s := Fed(Echoed(COMMAND), "\n");
      Owned(cs, s) && Holds(s, m) && EndsIn(cs, s, m, (s, m))
  {
    hide Owned, CString, Stored, Turn, Match, EndsIn, Moved;
    var s, m := Fed(Echoed(COMMAND), "\n"), Stored(w, "\n");
    FedOwned(cs, Echoed(COMMAND), "\n");
    StoredIs(w, "\n");
    StoredAt(w, "\n", 0);
    assert s.buf == "\n" && UpToNul("\n") == "\n";
    assert m[3] == '\0';
    NulBounds(m, 2, 3);
    LoneTurn(cs, s, m);
    RestEnds(cs, s, m);
  }

  /** So a modem whose echo ends in CR LF is read differently if the cut is before the LF, where the string alone shows
      no difference: one read adds an empty line to the response, two leave the LF to be the start of the next. */
  lemma ResidueShows(cs: seq<UrcClass>) returns (w: string, w1: string)
    ensures Owned(cs, Fed(Sent(COMMAND), ECHO)) && Clean(cs, Fed(Sent(COMMAND), ECHO))
    ensures var b := ECHO + "\n"; var m := Stored(Zeros(), b); var s := Fed(Sent(COMMAND), b);
      Owned(cs, s) && Holds(s, m) && EndsIn(cs, s, m, (Blank(), w))
    ensures var m := Stored(Zeros(), ECHO); var s := Fed(Sent(COMMAND), ECHO);
      Holds(s, m) && EndsIn(cs, s, m, (Echoed(COMMAND), w1))
    ensures Owned(cs, Echoed(COMMAND)) && Holds(Echoed(COMMAND), w1)
    ensures var m := Stored(w1, "\n"); var s := Fed(Echoed(COMMAND), "\n");
      Owned(cs, s) && Holds(s, m) && EndsIn(cs, s, m, (s, m)) && s.reqs != Blank().reqs
  {
    hide CString, Stored, Turn, EndsIn;
    w := OneReadEnds(cs);
    w1 := FirstReadEnds(cs);
    SecondReadRests(cs, w1);
    CleanEcho(cs);
  }

  lemma CleanEcho(cs: seq<UrcClass>)
    ensures Owned(cs, Fed(Sent(COMMAND), ECHO)) && Clean(cs, Fed(Sent(COMMAND), ECHO))
  {
    SentIs(cs, COMMAND);
    FedOwned(cs, Sent(COMMAND), ECHO);
    assert COMMAND + "\r" + "" == ECHO;
    EchoMatched(cs, COMMAND, "");
    hide Match;
    assert Pulled(Fed(Echoed(COMMAND), ECHO), 3) == Echoed(COMMAND);
    NothingToMatch(cs, Echoed(COMMAND));
  }
}
