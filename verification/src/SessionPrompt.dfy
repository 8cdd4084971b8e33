/** A run that reaches a prompt without its leading CR LF, where the cut between two reads shows. */
module SessionPrompt {
  import opened Text
  import opened Session
  import opened SessionChunking

  const COMMAND: string := "AT"
  const ECHO: string := "AT\r"

  /** A command that fits a request. */
  predicate IsCommand(c: string) { '\0' !in c && |c| < REQUEST_SIZE - 2 }

  function Asked(c: string): Session
  {
    var r := Request(c + "\r", None, 100 * MILLISEC, MAX_WRITES, false, 0, [], 2);
    Opened().(reqs := [r], queue := [0], held := {0})
  }

  function Sent(c: string): Session
  {
    Asked(c).(state := AwaitingEcho, timer := Some(ECHO_TIMEOUT), queue := [], current := Some(0), tx := [Command(0)])
  }

  /** The session once the echo of the command has come. */
  function Echoed(c: string): Session
  {
    Sent(c).(state := ReadingResponse, timer := Some(100 * MILLISEC))
  }

  lemma AskedIs(cs: seq<UrcClass>, c: string)
    requires IsCommand(c)
    ensures Owned(cs, Asked(c)) && Next(cs, Opened(), Submitted(c, [], 0)) == Asked(c)
  {
    assert Submit(cs, Opened(), c, [], 0).0 == Asked(c);
  }

  lemma SentIs(cs: seq<UrcClass>, c: string)
    requires IsCommand(c)
    ensures Owned(cs, Asked(c)) && Owned(cs, Sent(c)) && Next(cs, Asked(c), Served) == Sent(c)
  {
    AskedIs(cs, c);
    assert ProcessNext(cs, Asked(c)) == Sent(c);
  }

  /** The session gets there. */
  lemma SentReached(cs: seq<UrcClass>, c: string, rest: seq<Event>)
    requires IsCommand(c)
    ensures Owned(cs, Sent(c))
    ensures var es := [Submitted(c, [], 0)] + ([Served] + rest);
      Happens(cs, Sent(c), rest) ==> Happens(cs, Opened(), es) && Run(cs, Opened(), es) == Run(cs, Sent(c), rest)
  {
    AskedIs(cs, c);
    SentIs(cs, c);
    if Happens(cs, Sent(c), rest) {
      OneMore(cs, Asked(c), Served, rest);
      OneMore(cs, Opened(), Submitted(c, [], 0), [Served] + rest);
    }
  }

  lemma {:induction false} PlainText(t: string)
    requires '\0' !in t
    ensures UpToNul(t) == t
  {
    if t != "" { PlainText(t[1..]); }
  }

  lemma EchoMatched(cs: seq<UrcClass>, c: string, rest: string)
    requires IsCommand(c) && Owned(cs, Sent(c)) && Owned(cs, Fed(Sent(c), c + "\r" + rest))
    ensures Match(cs, Fed(Sent(c), c + "\r" + rest)) == (Fed(Echoed(c), c + "\r" + rest), |c| + 1)
    ensures MatchEcho(c + "\r" + rest, c + "\r") == |c| + 1
  {
    var b := c + "\r" + rest;
    assert c + "\r" <= b && MatchEcho(b, c + "\r") == |c| + 1;
    assert Fed(Sent(c), b).buf == b;
  }

  lemma EchoedIs(cs: seq<UrcClass>)
    ensures Owned(cs, Sent(COMMAND)) && Owned(cs, Echoed(COMMAND))
    ensures Receive(cs, Sent(COMMAND), ECHO) == Echoed(COMMAND)
  {
    var s := Sent(COMMAND);
    SentIs(cs, COMMAND);
    FedOwned(cs, s, ECHO);
    assert COMMAND + "\r" + "" == ECHO;
    EchoMatched(cs, COMMAND, "");
    PlainText(ECHO);
    ReceiveIsDrain(cs, s, ECHO);
    DrainTurn(cs, Fed(s, ECHO));
    assert Pulled(Fed(Echoed(COMMAND), ECHO), 3) == Echoed(COMMAND);
    NothingToMatch(cs, Echoed(COMMAND));
    DrainStops(cs, Echoed(COMMAND));
  }

  lemma EchoReached(cs: seq<UrcClass>)
    ensures Owned(cs, Echoed(COMMAND))
    ensures var es := [Submitted(COMMAND, [], 0)] + ([Served] + ([Arrived(ECHO)] + []));
      Happens(cs, Opened(), es) && Run(cs, Opened(), es) == Echoed(COMMAND)
  {
    SentIs(cs, COMMAND);
    EchoedIs(cs);
    assert Happens(cs, Echoed(COMMAND), []) && Run(cs, Echoed(COMMAND), []) == Echoed(COMMAND);
    OneMore(cs, Sent(COMMAND), Arrived(ECHO), []);
    SentReached(cs, COMMAND, [Arrived(ECHO)] + []);
  }

  /** A prompt may follow the echo at once; then it shows whether the next byte came with it or after it. */
  lemma ShortPromptReached(cs: seq<UrcClass>)
    ensures var es := [Submitted(COMMAND, [], 0)] + ([Served] + ([Arrived(ECHO)] + []));
      Happens(cs, Opened(), es) && Run(cs, Opened(), es) == Echoed(COMMAND)
    ensures var s := Echoed(COMMAND);
      && Owned(cs, s) && Owned(cs, Fed(s, "> ")) && ShortPrompt(Fed(s, "> "))
      && Receive(cs, s, "> " + "x") != Receive(cs, Receive(cs, s, "> "), "x")
  {
    hide Drain, Match;
    EchoReached(cs);
    var s := Echoed(COMMAND);
    FedOwned(cs, s, "> ");
    assert s.buf + "> " == "> " && PromptAt("> ", 0);
    ShortPromptSplits(cs, Fed(s, "> "));
    PlainText("> ");
    PlainText("x");
    ReceiveIsDrain(cs, s, "> ");
    FedTwice(s, "> ", "x");
    UpToNulAppends("> ", "x");
    ReceiveIsDrain(cs, s, "> " + "x");
    ReceiveIsDrain(cs, Receive(cs, s, "> "), "x");
  }
}
