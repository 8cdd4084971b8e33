/**
 The receive buffer of chan_vgsm/comm.c as memory: a string ends at its first NUL, and what is behind that stays there
 from earlier reads.
 */
module Memory {
  import opened Text

  /** Ends in a NUL, as zeroed memory does that is only written by read() for one less, with a terminator. */
  predicate IsMemory(m: string) { m != "" && m[|m| - 1] == '\0' }

  /** The string at i. */
  function CString(m: string, i: nat): string
    requires i <= |m|
  {
    UpToNul(m[i..])
  }

  lemma CStringIs(m: string, i: nat, t: string)
    requires i + |t| < |m| && m[i..i + |t|] == t && m[i + |t|] == '\0' && '\0' !in t
    ensures CString(m, i) == t
  {
    var b := m[i..];
    assert b == t + b[|t|..];
    UpToNulOf(t, b[|t|..]);
  }

  lemma {:induction false} UpToNulOf(t: string, rest: string)
    requires '\0' !in t && rest != "" && rest[0] == '\0'
    ensures UpToNul(t + rest) == t
  {
    if t == "" {
      assert t + rest == rest;
    } else {
      assert (t + rest)[1..] == t[1..] + rest;
      UpToNulOf(t[1..], rest);
    }
  }

  /** A string in memory: its characters, then its NUL. */
  lemma CStringAt(m: string, i: nat)
    requires IsMemory(m) && i < |m|
    ensures var t := CString(m, i);
      i + |t| < |m| && m[i..i + |t|] == t && m[i + |t|] == '\0' && '\0' !in t
  {
    var b, t := m[i..], CString(m, i);
    assert b[|b| - 1] == '\0';
    NulEnds(b);
    assert t == b[..|t|];
    assert '\0' in b && t != b;
  }

  /** The string behind the first k characters of the one at i. */
  lemma CStringLater(m: string, i: nat, k: nat)
    requires IsMemory(m) && i < |m| && k <= |CString(m, i)|
    ensures i + k < |m| && CString(m, i + k) == CString(m, i)[k..]
  {
    var t := CString(m, i);
    CStringAt(m, i);
    assert m[i..i + |t|][k..] == m[i + k..i + |t|];
    CStringIs(m, i + k, t[k..]);
  }

  /** Memories that agree from i up to the NUL hold the same string there. */
  lemma SameCString(m: string, w: string, i: nat)
    requires IsMemory(m) && |w| == |m| && i < |m|
    requires forall j :: i <= j <= i + |CString(m, i)| && j < |m| ==> w[j] == m[j]
    ensures CString(w, i) == CString(m, i)
  {
    CStringAt(m, i);
    var t := CString(m, i);
    assert w[i..i + |t|] == m[i..i + |t|];
    CStringIs(w, i, t);
  }

  /** read() puts the bytes behind the string, and a terminator behind them. */
  function Stored(m: string, bytes: string): (w: string)
    requires IsMemory(m) && |CString(m, 0)| + |bytes| < |m|
    ensures |w| == |m|
  {
    var n := |CString(m, 0)|;
    m[..n] + bytes + "\0" + m[n + |bytes| + 1..]
  }

  /** memmove() of the string at n, with its terminator, to the front. */
  function Moved(m: string, n: nat): (w: string)
    requires IsMemory(m) && n < |m|
    ensures |w| == |m|
  {
    CStringAt(m, n);
    var t := CString(m, n);
    t + "\0" + m[|t| + 1..]
  }

  lemma MovedIs(m: string, n: nat)
    requires IsMemory(m) && n < |m|
    ensures var t, w := CString(m, n), Moved(m, n);
      && IsMemory(w) && CString(w, 0) == t && |t| < |m| && w[..|t|] == t && w[|t|] == '\0'
      && forall j :: |t| < j < |m| ==> w[j] == m[j]
  {
    var t, w := CString(m, n), Moved(m, n);
    CStringAt(m, n);
    assert w[0..|t|] == t;
    CStringIs(w, 0, t);
  }

  lemma StoredAt(m: string, bytes: string, n: nat)
    requires IsMemory(m) && n == |CString(m, 0)| && n + |bytes| < |m|
    ensures var w := Stored(m, bytes);
      && w[..n] == m[..n] && w[n..n + |bytes|] == bytes && w[n + |bytes|] == '\0'
      && IsMemory(w) && forall j :: n + |bytes| < j < |m| ==> w[j] == m[j]
  {
    hide CString;
    var w := Stored(m, bytes);
    assert w[|w| - 1] == '\0';
  }

  lemma StoredText(w: string, t: string, bytes: string, seen: string)
    requires |t| + |bytes| < |w| && w[..|t|] == t && w[|t|..|t| + |bytes|] == bytes && w[|t| + |bytes|] == '\0'
    requires seen <= bytes && '\0' !in t && '\0' !in seen && (|seen| < |bytes| ==> bytes[|seen|] == '\0')
    ensures CString(w, 0) == t + seen
  {
    hide CString;
    var part := w[|t|..|t| + |bytes|];
    assert part[..|seen|] == seen;
    if |seen| < |bytes| { assert part[|seen|] == w[|t| + |seen|]; }
    assert w[0..|t + seen|] == w[..|t|] + part[..|seen|];
    CStringIs(w, 0, t + seen);
  }

  lemma StoredIs(m: string, bytes: string)
    requires IsMemory(m) && |CString(m, 0)| + |bytes| < |m|
    ensures var t, w := CString(m, 0), Stored(m, bytes);
      IsMemory(w) && CString(w, 0) == t + UpToNul(bytes)
  {
    hide Stored, UpToNul, CString, IsMemory;
    var t, w := CString(m, 0), Stored(m, bytes);
    CStringAt(m, 0);
    StoredAt(m, bytes, |t|);
    NulEnds(bytes);
    assert m[..|t|] == m[0..|t|];
    StoredText(w, t, bytes, UpToNul(bytes));
  }

  /** *end = '\0'. */
  lemma EndedIs(m: string, e: nat)
    requires IsMemory(m) && e < |m|
    ensures IsMemory(m[e := '\0'])
    ensures forall i :: 0 <= i <= e && e <= i + |CString(m, i)| ==> CString(m[e := '\0'], i) == m[i..e]
    ensures forall i :: e < i < |m| ==> CString(m[e := '\0'], i) == CString(m, i)
  {
    var w := m[e := '\0'];
    forall i | 0 <= i <= e && e <= i + |CString(m, i)| ensures CString(w, i) == m[i..e] {
      CStringAt(m, i);
      assert m[i..e] == CString(m, i)[..e - i];
      CStringIs(w, i, m[i..e]);
    }
    forall i | e < i < |m| ensures CString(w, i) == CString(m, i) { assert w[i..] == m[i..]; }
  }

  /** A NUL written anywhere leaves no string longer. */
  lemma EndedIsShorter(m: string, e: nat, i: nat)
    requires IsMemory(m) && e < |m| && i < |m|
    ensures |CString(m[e := '\0'], i)| <= |CString(m, i)|
  {
    EndedIs(m, e);
    CStringAt(m, i);
    if e < i || e <= i + |CString(m, i)| {
    } else {
      SameCString(m, m[e := '\0'], i);
    }
  }

  lemma NulBounds(m: string, i: nat, j: nat)
    requires IsMemory(m) && i <= j < |m| && m[j] == '\0'
    ensures |CString(m, i)| <= j - i
  {
    CStringAt(m, i);
    var t := CString(m, i);
    assert forall k :: 0 <= k < |t| ==> t[k] == m[i + k];
  }

  // ---------------------------------------------------------------- what a move leaves at the fifth character

  lemma MovedLater(m: string, n: nat)
    requires IsMemory(m) && n < |m| && 4 < |m|
    ensures var t, v := CString(m, n), Moved(m, n);
      && IsMemory(v)
      && (|t| >= 4 ==> |CString(v, 4)| == |t| - 4)
      && (|t| < 4 ==> CString(v, 4) == CString(m, 4))
  {
    hide CString, Moved;
    var t, v := CString(m, n), Moved(m, n);
    MovedIs(m, n);
    if |t| >= 4 { CStringLater(v, 0, 4); } else { SameCString(m, v, 4); }
  }

  /** Dropping no more than there is, with a line ended in place or not. */
  lemma DropInside(m: string, w: string, n: nat)
    requires IsMemory(m) && 4 < |m| && 0 < n <= |CString(m, 0)|
    requires w == m || (n >= 2 && w == m[n - 2 := '\0'])
    ensures IsMemory(w) && n < |m| && |w| == |m| && CString(w, n) == CString(m, 0)[n..]
    ensures |CString(Moved(w, n), 4)| <= |CString(m, 4)|
  {
    hide CString, Moved, IsMemory;
    CStringLater(m, 0, n);
    if n >= 2 {
      EndedIs(m, n - 2);
      EndedIsShorter(m, n - 2, 4);
    }
    MovedLater(w, n);
    if |CString(m, 0)| >= 4 { CStringLater(m, 0, 4); }
  }

  /** Dropping four where two or three are. */
  lemma DropBeyond(m: string)
    requires IsMemory(m) && 4 < |m| && 2 <= |CString(m, 0)| < 4
    ensures var t, v := CString(m, 4), Moved(m, 4);
      && IsMemory(v) && CString(v, 0) == t
      && (|t| >= 4 ==> |CString(v, 4)| < |t|)
      && (|t| < 4 ==> CString(v, 4) == t && (t == "" || |CString(v, 2)| <= 1))
  {
    hide CString, Moved;
    var t, v := CString(m, 4), Moved(m, 4);
    MovedIs(m, 4);
    MovedLater(m, 4);
    CStringAt(m, 0);
    if 2 <= |t| < 4 {
      CStringLater(v, 0, 2);
    } else if |t| == 1 {
      assert v[|CString(m, 0)|] == '\0';
      NulBounds(v, 2, |CString(m, 0)|);
    }
  }

  /** Ending a line at e and dropping it, where the search for e started at the third character. */
  lemma DropLine(m: string, e: nat)
    requires IsMemory(m) && 4 < |m| && 2 <= e && e <= |CString(m, 2)|
    ensures e + 2 < |m| && IsMemory(m[e := '\0'])
    ensures var t, v := CString(m[e := '\0'], e + 2), Moved(m[e := '\0'], e + 2);
      && IsMemory(v) && CString(v, 0) == t
      && (e >= 4 || |t| >= 4 ==> |CString(v, 4)| < |CString(m, 4)|)
      && (e < 4 && |t| < 4 ==> CString(v, 4) == CString(m[e := '\0'], 4) && (t == "" || |CString(v, 2)| <= 1))
  {
    hide CString, Moved;
    CStringLater(m, 2, 2);
    CStringLater(m, 2, e);
    EndedIs(m, e);
    var w := m[e := '\0'];
    var t, v := CString(w, e + 2), Moved(w, e + 2);
    MovedIs(w, e + 2);
    MovedLater(w, e + 2);
    if 2 <= |t| < 4 {
      CStringLater(v, 0, 2);
    } else if |t| == 1 && e < 4 {
      assert v[e] == '\0';
      NulBounds(v, 2, e);
    }
  }

  // ---------------------------------------------------------------- the same on an array

  /** strlen(buf + i). */
  method Strlen(buf: array<char>, i: nat) returns (n: nat)
    requires IsMemory(buf[..]) && i < buf.Length
    ensures n == |CString(buf[..], i)| && i + n < buf.Length
  {
    ghost var t := CString(buf[..], i);
    CStringAt(buf[..], i);
    assert forall k :: 0 <= k < |t| ==> t[k] == buf[i + k];
    n := 0;
    while buf[i + n] != '\0'
      invariant n <= |t|
      decreases |t| - n
    {
      n := n + 1;
    }
  }

  lemma StoredOnly(m: string, bytes: string, w: string, n: nat)
    requires IsMemory(m) && n == |CString(m, 0)| && n + |bytes| < |m| == |w|
    requires forall j :: 0 <= j < n ==> w[j] == m[j]
    requires forall j :: 0 <= j < |bytes| ==> w[n + j] == bytes[j]
    requires w[n + |bytes|] == '\0' && forall j :: n + |bytes| < j < |m| ==> w[j] == m[j]
    ensures w == Stored(m, bytes)
  {
    hide CString, IsMemory;
    assert w[n..n + |bytes|] == bytes;
    assert w == w[..n] + w[n..n + |bytes|] + [w[n + |bytes|]] + w[n + |bytes| + 1..];
    assert w[..n] == m[..n] && w[n + |bytes| + 1..] == m[n + |bytes| + 1..];
  }

  lemma MovedOnly(m: string, n: nat, w: string)
    requires IsMemory(m) && n < |m| == |w|
    requires var len := |CString(m, n)|;
      && n + len < |m|
      && (forall j :: 0 <= j <= len ==> w[j] == m[n + j]) && forall j :: len < j < |m| ==> w[j] == m[j]
    ensures w == Moved(m, n)
  {
    hide CString, IsMemory;
    var t := CString(m, n);
    CStringAt(m, n);
    assert w[..|t|] == m[n..n + |t|];
    assert w == w[..|t|] + [w[|t|]] + w[|t| + 1..];
    assert w[|t| + 1..] == m[|t| + 1..];
  }

  /** read() into the room behind the string, and the terminator behind what it brought. */
  method ReadBehind(buf: array<char>, bytes: string)
    requires IsMemory(buf[..]) && |CString(buf[..], 0)| + |bytes| < buf.Length
    modifies buf
    ensures buf[..] == Stored(old(buf[..]), bytes)
  {
    hide Stored, CString, IsMemory;
    ghost var was := buf[..];
    var n := Strlen(buf, 0);
    var k := 0;
    while k < |bytes|
      invariant k <= |bytes|
      invariant forall j :: 0 <= j < k ==> buf[n + j] == bytes[j]
      invariant forall j :: 0 <= j < n || n + k <= j < buf.Length ==> buf[j] == was[j]
    {
      buf[n + k] := bytes[k];
      k := k + 1;
    }
    buf[n + k] := '\0';
    StoredOnly(was, bytes, buf[..], n);
  }

  /** memmove(buf, buf + n, strlen(buf + n) + 1). */
  method MoveFront(buf: array<char>, n: nat)
    requires IsMemory(buf[..]) && n < buf.Length
    modifies buf
    ensures buf[..] == Moved(old(buf[..]), n)
  {
    hide Moved, CString, IsMemory;
    ghost var was := buf[..];
    var len := Strlen(buf, n);
    var k := 0;
    while k <= len
      invariant k <= len + 1
      invariant forall j :: 0 <= j < k ==> buf[j] == was[n + j]
      invariant forall j :: k <= j < buf.Length ==> buf[j] == was[j]
    {
      buf[k] := buf[n + k];
      k := k + 1;
    }
    MovedOnly(was, n, buf[..]);
  }
}
