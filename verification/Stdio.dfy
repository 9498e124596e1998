/** The standard-library line functions on a fully buffered input: fgets, strlen and fputs. */
module Stdio {
  import opened Bytes

  /** How many bytes fgets takes: to the first newline, at most `limit`, or to the end. */
  function CutLen(s: seq<Byte>, limit: nat): (n: nat)
    ensures n <= |s| && n <= limit
  {
    if s == [] || limit == 0 then 0
    else if s[0] == NEWLINE then 1
    else 1 + CutLen(s[1..], limit - 1)
  }

  /** The bytes that fgets(sendline, MAXLINE, fp) stores. */
  function Cut(s: seq<Byte>): seq<Byte> {
    s[..CutLen(s, MAXLINE - 1)]
  }

  function AfterCut(s: seq<Byte>): seq<Byte> {
    s[CutLen(s, MAXLINE - 1)..]
  }

  /** A string as strlen and fputs see it: up to the first 0. */
  function Cstr(s: seq<Byte>): (t: seq<Byte>)
    ensures t <= s && NUL !in t
  {
    if s == [] || s[0] == NUL then [] else [s[0]] + Cstr(s[1..])
  }

  lemma {:induction false} CstrWhole(s: seq<Byte>)
    ensures Cstr(s) == s <==> NUL !in s
  {
    if s == [] || s[0] == NUL {
    } else {
      CstrWhole(s[1..]);
      assert s == [s[0]] + s[1..];
    }
  }

  lemma CutProgress(s: seq<Byte>)
    requires s != []
    ensures |AfterCut(s)| < |s| && Cut(s) != [] && s == Cut(s) + AfterCut(s)
  {
  }

  /** Everything that reaches the socket of an input read with fgets and sent by strlen. */
  function Wire(input: seq<Byte>): seq<Byte> {
    if input == [] then []
    else
      CutProgress(input);
      Cstr(Cut(input)) + Wire(AfterCut(input))
  }

  lemma {:induction false} WireHasNoNul(input: seq<Byte>)
    ensures NUL !in Wire(input) && |Wire(input)| <= |input|
    decreases |input|
  {
    if input == [] {
    } else {
      CutProgress(input);
      WireHasNoNul(AfterCut(input));
    }
  }

  /** Nothing is lost on the way to the socket exactly when the input has no 0 byte. */
  lemma {:induction false} WireWhole(input: seq<Byte>)
    ensures Wire(input) == input <==> NUL !in input
    decreases |input|
  {
    if input == [] {
    } else {
      CutProgress(input);
      var cut, rest := Cut(input), AfterCut(input);
      WireWhole(rest);
      WireHasNoNul(rest);
      CstrWhole(cut);
      if Cstr(cut) + Wire(rest) == input {
        assert |Cstr(cut)| + |Wire(rest)| == |cut| + |rest|;
        assert Wire(rest) == input[|cut|..];
      }
    }
  }

  /** A newline can only be the last byte of a cut, and a cut is no longer than sendline allows. */
  lemma {:induction false} CutShape(s: seq<Byte>, limit: nat)
    ensures var n := CutLen(s, limit);
            && (forall i :: 0 <= i < n - 1 ==> s[i] != NEWLINE)
            && (n == |s| || n == limit || (n > 0 && s[n - 1] == NEWLINE))
  {
    if s == [] || limit == 0 || s[0] == NEWLINE {
    } else {
      CutShape(s[1..], limit - 1);
      assert forall i :: 0 <= i < CutLen(s[1..], limit - 1) ==> s[1..][i] == s[i + 1];
    }
  }
}
