/** The parts of .NET's System.String that the header scanner relies on:
    `Trim()`, `Split(char[], int, StringSplitOptions.RemoveEmptyEntries)` with a
    count of 2, `Split(char[], StringSplitOptions.RemoveEmptyEntries)` and
    `Replace(string, String.Empty)`. Each is written out so that its edge cases
    (leading separators, empty pieces, empty results) are those of the library. */
module Text {

  /** `char.IsWhiteSpace`: the Unicode White_Space characters. */
  predicate IsWhiteSpace(c: char) {
    var n := c as int;
    (9 <= n <= 13) || n == 0x20 || n == 0x85 || n == 0xA0 || n == 0x1680
    || (0x2000 <= n <= 0x200A) || n == 0x2028 || n == 0x2029 || n == 0x202F
    || n == 0x205F || n == 0x3000
  }

  predicate AllWhiteSpace(s: string) {
    forall k :: 0 <= k < |s| ==> IsWhiteSpace(s[k])
  }

  /** A string that `Trim` leaves alone: empty, or not starting or ending with white space. */
  predicate Trimmed(s: string) {
    s != [] ==> !IsWhiteSpace(s[0]) && !IsWhiteSpace(s[|s| - 1])
  }

  /** The number of white-space characters `s` starts with. */
  function LeadingWhiteSpace(s: string): (n: nat)
    ensures n <= |s| && (n < |s| ==> !IsWhiteSpace(s[n]))
    ensures forall k :: 0 <= k < n ==> IsWhiteSpace(s[k])
  {
    if s == [] || !IsWhiteSpace(s[0]) then 0 else 1 + LeadingWhiteSpace(s[1..])
  }

  /** The number of white-space characters `s` ends with. */
  function TrailingWhiteSpace(s: string): (n: nat)
    ensures n <= |s| && (n < |s| ==> !IsWhiteSpace(s[|s| - 1 - n]))
    ensures forall k :: |s| - n <= k < |s| ==> IsWhiteSpace(s[k])
  {
    if s == [] || !IsWhiteSpace(s[|s| - 1]) then 0 else 1 + TrailingWhiteSpace(s[..|s| - 1])
  }

  /** `String.Trim()`: the leading and the trailing white space removed. */
  function Trim(s: string): (r: string)
    ensures |r| <= |s| && Trimmed(r)
  {
    var i := LeadingWhiteSpace(s);
    if i == |s| then []
    else
      var n := TrailingWhiteSpace(s);
      assert i < |s| - n;
      s[i..|s| - n]
  }

  lemma {:induction false} LeadingOfPadded(w: string, v: string)
    requires AllWhiteSpace(w)
    requires v == [] || !IsWhiteSpace(v[0])
    ensures LeadingWhiteSpace(w + v) == |w|
    decreases |w|
  {
    if w != [] {
      assert (w + v)[1..] == w[1..] + v;
      LeadingOfPadded(w[1..], v);
    } else {
      assert w + v == v;
    }
  }

  lemma {:induction false} TrailingOfPadded(v: string, w: string)
    requires AllWhiteSpace(w)
    requires v == [] || !IsWhiteSpace(v[|v| - 1])
    ensures TrailingWhiteSpace(v + w) == |w|
    decreases |w|
  {
    if w != [] {
      assert (v + w)[..|v + w| - 1] == v + w[..|w| - 1];
      TrailingOfPadded(v, w[..|w| - 1]);
    } else {
      assert v + w == v;
    }
  }

  /** Trim undoes any white-space padding of a trimmed string. */
  lemma TrimPadded(w1: string, v: string, w2: string)
    requires AllWhiteSpace(w1) && AllWhiteSpace(w2) && Trimmed(v)
    ensures Trim(w1 + v + w2) == v
  {
    var s := w1 + v + w2;
    if v == [] {
      assert s == w1 + w2;
      assert AllWhiteSpace(w1 + w2);
      LeadingOfPadded(w1 + w2, []);
      assert w1 + w2 + [] == w1 + w2;
    } else {
      assert s == w1 + (v + w2);
      LeadingOfPadded(w1, v + w2);
      assert s == (w1 + v) + w2;
      TrailingOfPadded(w1 + v, w2);
      assert s[|w1|..|s| - |w2|] == v;
    }
  }

  /** Trimming twice is trimming once. */
  lemma TrimIdempotent(s: string)
    ensures Trim(Trim(s)) == Trim(s)
  {
    var r := Trim(s);
    TrimPadded([], r, []);
    assert [] + r + [] == r;
  }

  /** The number of `c` that `s` starts with. */
  function LeadingCount(s: string, c: char): (n: nat)
    ensures n <= |s| && (n < |s| ==> s[n] != c)
    ensures forall k :: 0 <= k < n ==> s[k] == c
  {
    if s == [] || s[0] != c then 0 else 1 + LeadingCount(s[1..], c)
  }

  /** The index of the first `c` in `s`, or `|s|` when there is none. */
  function IndexOf(s: string, c: char): (i: nat)
    ensures i <= |s| && (i < |s| ==> s[i] == c)
    ensures forall k :: 0 <= k < i ==> s[k] != c
  {
    if s == [] || s[0] == c then 0 else 1 + IndexOf(s[1..], c)
  }

  /** `s.Split(new char[] { c }, 2, StringSplitOptions.RemoveEmptyEntries)`:
      leading separators are skipped, the first piece runs up to the next
      separator, the separators right after it are skipped and the rest of
      the string (separators included) is the second piece; empty pieces are
      dropped, so a string made only of separators gives no piece at all. */
  function SplitFirst(s: string, c: char): (r: seq<string>)
    ensures |r| <= 2
    ensures forall k :: 0 <= k < |r| ==> r[k] != []
    ensures |r| >= 1 ==> c !in r[0]
    ensures |r| == 2 ==> r[1][0] != c
  {
    var t := s[LeadingCount(s, c)..];
    if t == [] then []
    else
      var i := IndexOf(t, c);
      var head := t[..i];
      assert c !in head by {
        forall k | 0 <= k < |head| ensures head[k] != c {
          assert head[k] == t[k];
        }
      }
      if i == |t| then [t]
      else
        var u := t[i + 1..];
        var rest := u[LeadingCount(u, c)..];
        if rest == [] then [head] else [head, rest]
  }

  /** Only a string made of separators alone (the empty string included) gives no piece. */
  lemma SplitFirstEmpty(s: string, c: char)
    ensures SplitFirst(s, c) == [] <==> OnlyOf(s, c)
  {
  }

  /** A run of `c` only (possibly empty). */
  predicate OnlyOf(w: string, c: char) {
    forall k :: 0 <= k < |w| ==> w[k] == c
  }

  lemma {:induction false} LeadingCountRun(w: string, s: string, c: char)
    requires OnlyOf(w, c)
    ensures LeadingCount(w + s, c) == |w| + LeadingCount(s, c)
    decreases |w|
  {
    if w != [] {
      assert (w + s)[0] == c;
      assert (w + s)[1..] == w[1..] + s;
      LeadingCountRun(w[1..], s, c);
    } else {
      assert w + s == s;
    }
  }

  /** Separators in front of a string are skipped: they never make a piece. */
  lemma SplitFirstSkip(w: string, s: string, c: char)
    requires OnlyOf(w, c)
    ensures SplitFirst(w + s, c) == SplitFirst(s, c)
  {
    LeadingCountRun(w, s, c);
    assert (w + s)[LeadingCount(w + s, c)..] == s[LeadingCount(s, c)..];
  }

  /** The inverse of SplitFirst: a piece without `c`, one `c`, any further
      run of `c`, and a rest that does not start with `c` split back into the
      piece and the rest. */
  lemma SplitFirstJoin(a: string, c: char, w: string, b: string)
    requires a != [] && c !in a && OnlyOf(w, c)
    requires b == [] || b[0] != c
    ensures SplitFirst(a + [c] + w + b, c) == if b == [] then [a] else [a, b]
  {
    var s := a + [c] + w + b;
    assert s[0] == a[0];
    assert LeadingCount(s, c) == 0;
    assert s[0..] == s;
    assert s[|a|] == c;
    assert IndexOf(s, c) == |a|;
    assert s[..|a|] == a;
    assert s[|a| + 1..] == w + b;
    LeadingCountRun(w, b, c);
    assert LeadingCount(b, c) == 0;
    assert (w + b)[|w|..] == b;
  }

  /** A string without `c` is one piece (when not empty). */
  lemma SplitFirstWhole(a: string, c: char)
    requires a != [] && c !in a
    ensures SplitFirst(a, c) == [a]
  {
    assert a[0] != c;
    assert a[0..] == a;
    assert IndexOf(a, c) == |a|;
  }

  predicate IsFieldSeparator(c: char) {
    c == ' ' || c == ';'
  }

  /** A non-empty piece with no field separator in it. */
  predicate IsToken(t: string) {
    t != [] && forall j :: 0 <= j < |t| ==> !IsFieldSeparator(t[j])
  }

  /** The number of separators `s` starts with. */
  function SeparatorCount(s: string): (n: nat)
    ensures n <= |s| && (n < |s| ==> !IsFieldSeparator(s[n]))
    ensures forall k :: 0 <= k < n ==> IsFieldSeparator(s[k])
  {
    if s == [] || !IsFieldSeparator(s[0]) then 0 else 1 + SeparatorCount(s[1..])
  }

  /** The length of the leading run of non-separators. */
  function TokenLength(s: string): (n: nat)
    ensures n <= |s| && (n < |s| ==> IsFieldSeparator(s[n]))
    ensures forall k :: 0 <= k < n ==> !IsFieldSeparator(s[k])
  {
    if s == [] || IsFieldSeparator(s[0]) then 0 else 1 + TokenLength(s[1..])
  }

  /** `s.Split(new char[] { ' ', ';' }, StringSplitOptions.RemoveEmptyEntries)`:
      the maximal runs of characters other than space and semicolon, in order. */
  function Tokens(s: string): (r: seq<string>)
    ensures forall t <- r :: IsToken(t)
    decreases |s|
  {
    var t := s[SeparatorCount(s)..];
    if t == [] then []
    else
      var n := TokenLength(t);
      var head, rest := t[..n], t[n..];
      assert n > 0 && |rest| < |s|;
      assert IsToken(head);
      [head] + Tokens(rest)
  }

  /** `s` with every field separator removed. */
  function Strip(s: string): (r: string)
    ensures |r| <= |s|
  {
    if s == [] then []
    else if IsFieldSeparator(s[0]) then Strip(s[1..])
    else [s[0]] + Strip(s[1..])
  }

  function Concat(ts: seq<string>): string {
    if ts == [] then [] else ts[0] + Concat(ts[1..])
  }

  lemma {:induction false} StripSeparators(w: string, s: string)
    requires forall k :: 0 <= k < |w| ==> IsFieldSeparator(w[k])
    ensures Strip(w + s) == Strip(s)
    decreases |w|
  {
    if w != [] {
      assert (w + s)[1..] == w[1..] + s;
      StripSeparators(w[1..], s);
    } else {
      assert w + s == s;
    }
  }

  lemma {:induction false} StripToken(t: string, s: string)
    requires forall k :: 0 <= k < |t| ==> !IsFieldSeparator(t[k])
    ensures Strip(t + s) == t + Strip(s)
    decreases |t|
  {
    if t != [] {
      assert (t + s)[1..] == t[1..] + s;
      StripToken(t[1..], s);
      assert t == [t[0]] + t[1..];
    } else {
      assert t + s == s;
    }
  }

  lemma StripSplit(s: string, n: nat)
    requires n <= |s|
    ensures Strip(s) == Strip(s[..n]) + Strip(s[n..])
    decreases n
  {
    if n > 0 {
      assert s[1..][..n - 1] == s[1..n];
      StripSplit(s[1..], n - 1);
      assert s[1..][n - 1..] == s[n..];
      assert s[..n][1..] == s[1..n];
    } else {
      assert s[..0] == [] && s[0..] == s;
    }
  }

  /** Together the tokens are exactly the non-separator characters of `s`. */
  lemma {:induction false} TokensCover(s: string)
    ensures Concat(Tokens(s)) == Strip(s)
    decreases |s|
  {
    var m := SeparatorCount(s);
    var t := s[m..];
    assert Strip(s) == Strip(t) by {
      StripSplit(s, m);
      StripSeparators(s[..m], []);
      assert s[..m] + [] == s[..m];
    }
    if t != [] {
      var n := TokenLength(t);
      var head, rest := t[..n], t[n..];
      assert Strip(t) == head + Strip(rest) by {
        StripSplit(t, n);
        StripToken(head, []);
        assert head + [] == head;
      }
      TokensCover(rest);
      ConcatCons(head, Tokens(rest));
    }
  }

  lemma ConcatCons(head: string, ts: seq<string>)
    ensures Concat([head] + ts) == head + Concat(ts)
  {
    assert ([head] + ts)[1..] == ts;
  }

  /** A string holding a character that is not a separator has at least one token. */
  lemma TokensNonEmpty(s: string, k: nat)
    requires k < |s| && !IsFieldSeparator(s[k])
    ensures |Tokens(s)| >= 1
  {
    StripHasChar(s, k);
    TokensCover(s);
  }

  lemma {:induction false} StripHasChar(s: string, k: nat)
    requires k < |s| && !IsFieldSeparator(s[k])
    ensures Strip(s) != []
    decreases |s|
  {
    if k > 0 && IsFieldSeparator(s[0]) {
      StripHasChar(s[1..], k - 1);
    }
  }

  function Joined(ts: seq<string>, gap: string): string {
    if ts == [] then []
    else if |ts| == 1 then ts[0]
    else ts[0] + gap + Joined(ts[1..], gap)
  }

  /** Tokens joined by runs of separators split back into the same tokens. */
  lemma {:induction false} TokensOfJoined(ts: seq<string>, gap: string)
    requires forall k :: 0 <= k < |ts| ==> IsToken(ts[k])
    requires gap != [] && forall k :: 0 <= k < |gap| ==> IsFieldSeparator(gap[k])
    ensures Tokens(Joined(ts, gap)) == ts
    decreases |ts|
  {
    if |ts| == 1 {
      TokensOfToken(ts[0], []);
      assert ts[0] + [] == ts[0];
    } else if |ts| > 1 {
      TokensOfJoinedStep(ts, gap);
      TokensOfJoined(ts[1..], gap);
      assert ts == [ts[0]] + ts[1..];
    }
  }

  lemma TokensOfJoinedStep(ts: seq<string>, gap: string)
    requires |ts| > 1 && forall k :: 0 <= k < |ts| ==> IsToken(ts[k])
    requires gap != [] && forall k :: 0 <= k < |gap| ==> IsFieldSeparator(gap[k])
    ensures Tokens(Joined(ts, gap)) == [ts[0]] + Tokens(Joined(ts[1..], gap))
  {
    var rest := Joined(ts[1..], gap);
    var u := gap + rest;
    JoinedCons(ts, gap);
    assert Tokens(u) == Tokens(rest) by {
      JoinedStart(ts[1..], gap);
      DropGap(gap, rest);
    }
    assert Tokens(ts[0] + u) == [ts[0]] + Tokens(u) by {
      assert u[0] == gap[0];
      TokensOfToken(ts[0], u);
    }
  }

  lemma JoinedCons(ts: seq<string>, gap: string)
    requires |ts| > 1
    ensures Joined(ts, gap) == ts[0] + (gap + Joined(ts[1..], gap))
  {
  }

  lemma JoinedStart(ts: seq<string>, gap: string)
    requires |ts| >= 1 && forall k :: 0 <= k < |ts| ==> IsToken(ts[k])
    ensures Joined(ts, gap) != [] && !IsFieldSeparator(Joined(ts, gap)[0])
  {
    if |ts| > 1 {
      assert Joined(ts, gap) == ts[0] + (gap + Joined(ts[1..], gap));
      assert Joined(ts, gap)[0] == ts[0][0];
    }
  }

  /** A token followed by nothing or by a separator starts the token list. */
  lemma TokensOfToken(t: string, s: string)
    requires IsToken(t)
    requires s == [] || IsFieldSeparator(s[0])
    ensures Tokens(t + s) == [t] + Tokens(s)
  {
    var u := t + s;
    assert u[0] == t[0];
    assert SeparatorCount(u) == 0;
    assert u[0..] == u;
    assert TokenLength(u) == |t| by {
      if |t| < |u| { assert u[|t|] == s[0]; }
    }
    assert u[..|t|] == t;
    assert u[|t|..] == s;
  }

  lemma {:induction false} DropGap(gap: string, s: string)
    requires forall k :: 0 <= k < |gap| ==> IsFieldSeparator(gap[k])
    requires s == [] || !IsFieldSeparator(s[0])
    ensures Tokens(gap + s) == Tokens(s)
  {
    var u := gap + s;
    assert SeparatorCount(u) == |gap| by {
      if |gap| < |u| { assert u[|gap|] == s[0]; }
    }
    assert u[|gap|..] == s;
    assert SeparatorCount(s) == 0;
    assert s[0..] == s;
  }

  /** `s.Replace(c.ToString(), String.Empty)`: every `c` removed, the rest kept in order. */
  function RemoveAll(s: string, c: char): (r: string)
    ensures c !in r
    ensures |r| <= |s|
    ensures c !in s ==> r == s
  {
    if s == [] then []
    else if s[0] == c then RemoveAll(s[1..], c)
    else [s[0]] + RemoveAll(s[1..], c)
  }

  /** Removing `c` from two strings joined is removing it from each: what is
      kept stays in order. */
  lemma {:induction false} RemoveAllConcat(a: string, b: string, c: char)
    ensures RemoveAll(a + b, c) == RemoveAll(a, c) + RemoveAll(b, c)
    decreases |a|
  {
    if a == [] {
      assert a + b == b;
    } else {
      assert (a + b)[1..] == a[1..] + b;
      RemoveAllConcat(a[1..], b, c);
    }
  }

  /** A single character is dropped exactly when it is `c`. */
  lemma RemoveAllChar(x: char, c: char)
    ensures RemoveAll([x], c) == if x == c then [] else [x]
  {
    assert [x][1..] == [];
  }
}
