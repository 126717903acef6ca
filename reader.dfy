/** System.IO.StringReader as the header scanner uses it: `ReadLine()` and
    `Peek()` over an in-memory string with a cursor. */
module Reader {
  import opened Results

  predicate IsLineBreak(c: char) {
    c == '\r' || c == '\n'
  }

  predicate NoLineBreak(s: string) {
    forall k :: 0 <= k < |s| ==> !IsLineBreak(s[k])
  }

  lemma NoLineBreakConcat(a: string, b: string)
    requires NoLineBreak(a) && NoLineBreak(b)
    ensures NoLineBreak(a + b)
  {
    forall k | 0 <= k < |a + b| ensures !IsLineBreak((a + b)[k]) {
      if k >= |a| { assert (a + b)[k] == b[k - |a|]; }
    }
  }

  /** The text that may end a line: "\r\n", "\r", "\n", or nothing at the end of input. */
  predicate IsTerminator(e: string) {
    e == [] || e == ['\n'] || e == ['\r'] || e == ['\r', '\n']
  }

  /** How a line may end in the input, given what follows it: LF, CRLF, a
      CR that is not the first half of a CRLF, or the end of input. */
  predicate EndsLine(e: string, rest: string) {
    IsTerminator(e) && (e == [] ==> rest == []) && (e == ['\r'] ==> rest == [] || rest[0] != '\n')
  }

  /** A line read from the input and the input left after its terminator. */
  datatype Line = Line(text: string, rest: string)

  /** The length of the leading run of characters other than CR and LF. */
  function LineLength(t: string): (n: nat)
    ensures n <= |t| && (n < |t| ==> IsLineBreak(t[n]))
    ensures NoLineBreak(t[..n])
  {
    if t == [] || IsLineBreak(t[0]) then 0 else 1 + LineLength(t[1..])
  }

  /** What `ReadLine()` returns when `t` is the unread input: `None` (null) at
      the end of input; otherwise the text up to the first CR or LF, the
      terminator ("\r\n" counting as one) being consumed but not returned; a
      last line without terminator is returned as it is. */
  function ReadLineOf(t: string): (r: Option<Line>)
    ensures r.None? <==> t == []
    ensures r.Some? ==> NoLineBreak(r.value.text) && |r.value.rest| < |t|
  {
    if t == [] then None
    else
      var n := LineLength(t);
      var next := if n == |t| then n
                  else if t[n] == '\r' && n + 1 < |t| && t[n + 1] == '\n' then n + 2
                  else n + 1;
      Some(Line(t[..n], t[next..]))
  }

  /** A line read is what the input starts with, followed by a terminator and
      then by the rest: a bare CR is never the first half of a CRLF, and only
      the end of input ends a line without terminator. */
  lemma ReadLineOfSplits(t: string)
    requires t != []
    ensures var l := ReadLineOf(t).value;
            exists e :: EndsLine(e, l.rest) && t == l.text + e + l.rest
  {
    var l := ReadLineOf(t).value;
    var n := LineLength(t);
    var next := |t| - |l.rest|;
    var e := t[n..next];
    assert t == l.text + e + l.rest;
    assert IsTerminator(e);
  }

  /** The inverse of ReadLineOf: a line without CR or LF followed by a
      terminator is read back as that line, and the reader stops right after
      the terminator. */
  lemma ReadLineOfTerminated(text: string, e: string, rest: string)
    requires NoLineBreak(text) && EndsLine(e, rest)
    requires text + e != []
    ensures ReadLineOf(text + e + rest) == Some(Line(text, rest))
  {
    var t := text + e + rest;
    assert t[..|text|] == text;
    assert LineLength(t) == |text| by {
      if |text| < |t| {
        assert t[|text|] == e[0];
      }
    }
    assert t[|text| + |e|..] == rest;
  }

  /** The line `ReadLine` finds by scanning `s` from `start`: the first line
      break is at `i` and the terminator ends at `next`. */
  lemma ReadLineOfAt(s: string, start: nat, i: nat, next: nat)
    requires start < |s| && start <= i <= next <= |s|
    requires forall k :: start <= k < i ==> !IsLineBreak(s[k])
    requires i == |s| ==> next == i
    requires i < |s| ==> IsLineBreak(s[i])
    requires i < |s| ==> next == (if s[i] == '\r' && i + 1 < |s| && s[i + 1] == '\n' then i + 2 else i + 1)
    ensures ReadLineOf(s[start..]) == Some(Line(s[start..i], s[next..]))
  {
    var t := s[start..];
    assert LineLength(t) == i - start by {
      LineLengthAt(s, start, i);
    }
    assert t[..i - start] == s[start..i];
    assert t[next - start..] == s[next..];
  }

  lemma LineLengthAt(s: string, start: nat, i: nat)
    requires start <= i <= |s|
    requires forall k :: start <= k < i ==> !IsLineBreak(s[k])
    requires i < |s| ==> IsLineBreak(s[i])
    ensures LineLength(s[start..]) == i - start
  {
  }

  /** The next character, as `Peek()` returns it: its code, or -1 at the end of input. */
  function PeekOf(t: string): (c: int)
    ensures c == -1 <==> t == []
    ensures t != [] ==> c == t[0] as int
  {
    if t == [] then -1 else t[0] as int
  }

  /** A cursor over an in-memory string. */
  class StringReader {
    const s: string
    var pos: nat

    ghost predicate Valid()
      reads this
    {
      pos <= |s|
    }

    /** The input not read yet. */
    function Remaining(): string
      reads this
      requires Valid()
    {
      s[pos..]
    }

    constructor (s: string)
      ensures Valid() && this.s == s && pos == 0 && Remaining() == s
    {
      this.s := s;
      pos := 0;
    }

    /** `Peek()`: the next character without consuming it; -1 at the end of input. */
    method Peek() returns (c: int)
      requires Valid()
      ensures c == -1 <==> pos == |s|
      ensures pos < |s| ==> c == s[pos] as int
    {
      if pos < |s| {
        c := s[pos] as int;
      } else {
        c := -1;
      }
    }

    /** `ReadLine()`: scans for the first CR or LF from the cursor. */
    method ReadLine() returns (line: Option<string>)
      requires Valid()
      modifies this`pos
      ensures Valid()
      ensures old(pos) == |s| ==> line == None && pos == old(pos)
      ensures old(pos) < |s| ==> line.Some? && ReadLineOf(old(Remaining())) == Some(Line(line.value, Remaining()))
    {
      if pos >= |s| {
        return None;
      }
      var i := pos;
      while i < |s| && !IsLineBreak(s[i])
        invariant pos <= i <= |s|
        invariant forall k :: pos <= k < i ==> !IsLineBreak(s[k])
      {
        i := i + 1;
      }
      line := Some(s[pos..i]);
      var next := i;
      if i < |s| {
        next := i + 1;
        if s[i] == '\r' && next < |s| && s[next] == '\n' {
          next := next + 1;
        }
      }
      ReadLineOfAt(s, pos, i, next);
      pos := next;
    }
  }
}
