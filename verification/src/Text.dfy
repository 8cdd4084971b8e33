/** Strings as the C code sees them: bytes up to a NUL, substring search and number parsing. */
module Text {

  datatype Option<+T> = None | Some(value: T) {
    function GetOr(default: T): T { if Some? then value else default }
  }

  const ENOSPC := 28

  const CRLF: string := "\r\n"

  /** The part of a read that later string functions can see: everything before the first NUL. */
  function UpToNul(s: string): (r: string)
    ensures r <= s && '\0' !in r
    ensures '\0' !in s ==> r == s
  {
    if s == [] || s[0] == '\0' then [] else [s[0]] + UpToNul(s[1..])
  }

  lemma {:induction false} NulEnds(src: string)
    ensures var s := UpToNul(src); |s| < |src| ==> src[|s|] == '\0'
  {
    if src != "" && src[0] != '\0' { NulEnds(src[1..]); }
  }

  /** Dropping n characters from a NUL-terminated buffer; there is nothing to drop past the NUL. */
  function Pull(b: string, n: nat): (r: string)
    ensures |r| == if n <= |b| then |b| - n else 0
  {
    if n <= |b| then b[n..] else []
  }

  ghost predicate CrLfAt(b: string, i: int)
  {
    0 <= i && i + 2 <= |b| && b[i] == '\r' && b[i + 1] == '\n'
  }

  /** Where the first CR LF at or after `from` starts. */
  function FindCrLf(b: string, from: nat): (r: Option<nat>)
    requires from <= |b|
    ensures r.Some? ==> from <= r.value && CrLfAt(b, r.value)
    ensures r.Some? ==> forall i :: from <= i < r.value ==> !CrLfAt(b, i)
    ensures r.None? ==> forall i :: from <= i ==> !CrLfAt(b, i)
    decreases |b| - from
  {
    if from + 2 > |b| then None
    else if b[from] == '\r' && b[from + 1] == '\n' then Some(from)
    else FindCrLf(b, from + 1)
  }

  /** A line end already in the buffer stays the first one when more bytes arrive. */
  lemma FindCrLfExtends(b: string, t: string, from: nat)
    requires from <= |b|
    requires FindCrLf(b, from).Some?
    ensures FindCrLf(b + t, from) == FindCrLf(b, from)
  {
    var e := FindCrLf(b, from).value;
    assert CrLfAt(b + t, e);
    var r := FindCrLf(b + t, from);
    if r.Some? && r.value < e {
      assert CrLfAt(b, r.value);
    }
  }

  predicate IsSpace(c: char)
  {
    c == ' ' || '\t' <= c <= '\r'
  }

  predicate IsDigit(c: char)
  {
    '0' <= c <= '9'
  }

  function DecimalDigits(s: string, acc: nat): nat
  {
    if s == [] || !IsDigit(s[0]) then acc
    else DecimalDigits(s[1..], 10 * acc + (s[0] as int - '0' as int))
  }

  /** atoi() on values that fit: leading blanks, one sign, then digits. */
  function Atoi(s: string): int
  {
    if s == [] then 0
    else if IsSpace(s[0]) then Atoi(s[1..])
    else if s[0] == '-' then -(DecimalDigits(s[1..], 0) as int)
    else if s[0] == '+' then DecimalDigits(s[1..], 0)
    else DecimalDigits(s, 0)
  }

  /** A number as printf() has it. */
  function Printed(n: nat): (r: string)
    ensures r != "" && forall i :: 0 <= i < |r| ==> IsDigit(r[i])
  {
    var d := [('0' as int + n % 10) as char];
    if n < 10 then d else Printed(n / 10) + d
  }

  lemma {:induction false} DigitsFold(s: string, c: char, acc: nat)
    requires IsDigit(c) && forall i :: 0 <= i < |s| ==> IsDigit(s[i])
    ensures DecimalDigits(s + [c], acc) == 10 * DecimalDigits(s, acc) + (c as int - '0' as int)
    decreases |s|
  {
    if s != "" {
      assert (s + [c])[1..] == s[1..] + [c];
      DigitsFold(s[1..], c, 10 * acc + (s[0] as int - '0' as int));
    } else {
      assert ("" + [c])[1..] == "";
    }
  }

  lemma {:induction false} PrintedDigits(n: nat)
    ensures DecimalDigits(Printed(n), 0) == n
  {
    var c := ('0' as int + n % 10) as char;
    if n >= 10 {
      PrintedDigits(n / 10);
      DigitsFold(Printed(n / 10), c, 0);
    } else {
      DigitsFold("", c, 0);
      assert "" + [c] == [c];
    }
  }

  /** atoi() reads printed numbers back. */
  lemma AtoiPrinted(n: nat)
    ensures Atoi(Printed(n)) == n
  {
    PrintedDigits(n);
    assert IsDigit(Printed(n)[0]);
  }
}
