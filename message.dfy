/** EmailMessage.cs: the header block of an EML text read line by line from
    a StringReader, with folded (continued) header lines joined, and the
    MIME boundary taken from the `Content-Type` header. */
module Message {
  import opened Results
  import opened Text
  import opened Reader
  import opened Header

  /** A header as the message keeps it: its name and its (unfolded) value. */
  datatype HeaderRec = HeaderRec(name: string, value: string)

  /** What one call of `ParseHeader` does with the unread input. */
  datatype HeaderStep =
    | Broken                                         // an exception (null line, no name, append on "")
    | Blank(rest: string)                            // the blank line ending the block: `null`
    | Parsed(name: string, value: string, rest: string)

  /** The headers read, the boundary, and the input after the blank line
      that ended the block, or `Fail` when an exception ended it. */
  datatype Block = Block(headers: seq<HeaderRec>, boundary: Option<string>, rest: Result<string>)

  /** What `ParseEML` leaves behind: the `Headers` list, the `boundary` field,
      and whether it returned normally. */
  datatype Outcome = Outcome(headers: seq<HeaderRec>, boundary: Option<string>, ok: bool)

  const ContentType: string := "Content-Type"

  /** The next line continues the current header: `IsNextCharWhitespace`. */
  predicate Folded(t: string): (b: bool)
    ensures b <==> t != [] && (t[0] == ' ' || t[0] == '\t')
  {
    PeekOf(t) == ' ' as int || PeekOf(t) == '\t' as int
  }

  /** The loop of `ParseHeader` that reads continuation lines: while the next
      character is a space or a tab, the next line is read and appended to
      the value, which throws when the value is empty. */
  function Unfold(name: string, v: string, t: string): (r: HeaderStep)
    ensures !r.Blank?
    ensures r.Parsed? ==> r.name == name && |r.rest| <= |t| && !Folded(r.rest)
    decreases |t|
  {
    if !Folded(t) then Parsed(name, v, t)
    else if v == [] then Broken
    else
      var l := ReadLineOf(t).value;
      Unfold(name, Appended(v, l.text), l.rest)
  }

  /** `ParseHeader` on the unread input `t`: reading past the end fails
      (`line.Length` on null), an empty line ends the block, a line made only
      of ':' fails (`header[0]`), any other line is split at its first ':'
      into the name and the trimmed value, and the continuation lines follow. */
  function ScanHeader(t: string): (r: HeaderStep)
    ensures r.Broken? || |r.rest| < |t|
    ensures r.Parsed? ==> !Folded(r.rest)
  {
    match ReadLineOf(t)
    case None => Broken
    case Some(l) =>
      if l.text == [] then Blank(l.rest)
      else
        var parts := SplitFirst(l.text, ':');
        if parts == [] then Broken
        else Unfold(parts[0], Trim(if |parts| == 2 then parts[1] else ""), l.rest)
  }

  /** The `boundary` field of a `Content-Type` value: building the fields
      may throw, no fields throws, a missing key throws (`Fields["boundary"]`). */
  function BoundaryOf(value: string): (r: Result<Option<string>>)
    ensures r.Ok? <==> FieldsOf(value).Ok? && FieldsOf(value).value.Some?
                       && "boundary" in FieldsOf(value).value.value
    ensures '=' !in value ==> r == Fail
  {
    match FieldsOf(value)
    case Fail => Fail
    case Ok(None) => Fail
    case Ok(Some(m)) => if "boundary" in m then Ok(m["boundary"]) else Fail
  }

  /** The `while` loop of `ParseEML` from the unread input `t`, with the
      headers `acc` and the boundary `b` so far: each header is added before
      a `Content-Type` header is inspected. */
  function HeaderBlock(t: string, acc: seq<HeaderRec>, b: Option<string>): (r: Block)
    ensures |acc| <= |r.headers|
    ensures r.rest.Ok? ==> |r.rest.value| < |t|
    decreases |t|
  {
    match ScanHeader(t)
    case Broken => Block(acc, b, Fail)
    case Blank(rest) => Block(acc, b, Ok(rest))
    case Parsed(name, value, rest) =>
      var acc' := acc + [HeaderRec(name, value)];
      if name != ContentType then HeaderBlock(rest, acc', b)
      else
        match BoundaryOf(value)
        case Fail => Block(acc', b, Fail)
        case Ok(nb) => HeaderBlock(rest, acc', nb)
  }

  /** A media type with a `boundary` parameter is accepted, and the
      boundary is the parameter's value, unquoted and without a "--" prefix. */
  lemma BoundaryOfParameter(mime: string, v: string)
    requires IsToken(mime) && '=' !in mime && mime != "boundary"
    requires IsToken(v) && v[0] != '='
    ensures BoundaryOf(mime + "; boundary=" + v) == Ok(Some(Unquote(v)))
  {
    BoundaryKey();
    BoundaryParameterText(mime, v);
    TypeAndParameter(mime, "boundary", v);
  }

  /** `type; boundary=` is accepted, and the boundary becomes null. */
  lemma BoundaryOfEmptyParameter(mime: string)
    requires IsToken(mime) && '=' !in mime && mime != "boundary"
    ensures BoundaryOf(mime + "; boundary=") == Ok(None)
  {
    BoundaryKey();
    assert mime + "; " + "boundary" + "=" == mime + "; boundary=";
    TypeAndEmptyParameter(mime, "boundary");
  }

  lemma BoundaryKey()
    ensures IsToken("boundary") && '=' !in "boundary"
  {
  }

  lemma BoundaryParameterText(mime: string, v: string)
    ensures mime + "; " + "boundary" + "=" + v == mime + "; boundary=" + v
  {
  }

  /** The `Content-Type` of a multipart/alternative message. */
  lemma MultipartBoundary()
    ensures BoundaryOf("multipart/alternative; boundary=\"XYZ\"") == Ok(Some("XYZ"))
  {
    MultipartText();
    BoundaryOfParameter("multipart/alternative", "\"XYZ\"");
  }

  lemma MultipartText()
    ensures IsToken("multipart/alternative") && '=' !in "multipart/alternative"
    ensures IsToken("\"XYZ\"") && Unquote("\"XYZ\"") == "XYZ"
    ensures "multipart/alternative" + "; boundary=" + "\"XYZ\"" == "multipart/alternative; boundary=\"XYZ\""
  {
    MultipartToken();
    QuotedXyz();
  }

  lemma QuotedXyz()
    ensures IsToken("\"XYZ\"") && Unquote("\"XYZ\"") == "XYZ"
  {
    assert RemoveAll("\"XYZ\"", '"') == "XYZ";
  }

  lemma MultipartToken()
    ensures IsToken("multipart/alternative") && '=' !in "multipart/alternative"
    ensures NoLineBreak("multipart/alternative")
  {
    var t := "multipart/alternative";
    forall j | 0 <= j < |t| ensures !IsFieldSeparator(t[j]) && t[j] != '=' && !IsLineBreak(t[j]) {
      if j < 10 {
        assert t[..10] == "multipart/";
        assert t[j] == t[..10][j];
      } else {
        assert t[10..] == "alternative";
        assert t[j] == t[10..][j - 10];
      }
    }
  }

  /** The line after the header block is read and must be empty. */
  predicate SeparatorEmpty(t: string) {
    ReadLineOf(t).Some? && ReadLineOf(t).value.text == []
  }

  /** `ParseEML` as written, starting from the headers `acc` and the boundary `b`. */
  function ParseEmlFrom(eml: string, acc: seq<HeaderRec>, b: Option<string>): (r: Outcome)
    ensures r.ok ==> HeaderBlock(eml, acc, b).rest.Ok?
  {
    var blk := HeaderBlock(eml, acc, b);
    Outcome(blk.headers, blk.boundary, blk.rest.Ok? && SeparatorEmpty(blk.rest.value))
  }

  /** `new EmailMessage(eml)`: no headers and the boundary "" to start with. */
  function ParseEmlOf(eml: string): (r: Outcome)
    ensures eml == [] ==> !r.ok
    ensures r.ok ==> |eml| >= 2
  {
    ParseEmlFrom(eml, [], Some(""))
  }

  /** `ParseEML` with the blank line that ended the header block taken as the
      header-body separator, as its comments describe. */
  function ParseEmlIntended(eml: string): (r: Outcome)
    ensures r.headers == ParseEmlOf(eml).headers && r.boundary == ParseEmlOf(eml).boundary
    ensures ParseEmlOf(eml).ok ==> r.ok
  {
    var blk := HeaderBlock(eml, [], Some(""));
    Outcome(blk.headers, blk.boundary, blk.rest.Ok?)
  }

  // ---------------------------------------------------------------------
  // Rendering headers as text, and reading them back

  /** A header that `ToString` renders as a line `ParseHeader` reads back:
      a name without ':' or line break that does not start with white space
      (it would continue the previous line), and a trimmed single-line value. */
  predicate WellFormed(h: HeaderRec) {
    && h.name != [] && ':' !in h.name && NoLineBreak(h.name)
    && h.name[0] != ' ' && h.name[0] != '\t'
    && NoLineBreak(h.value) && Trimmed(h.value)
  }

  /** A header that `ParseEML` accepts: any header but a `Content-Type`
      without a `boundary` field. */
  predicate Accepted(h: HeaderRec) {
    h.name == ContentType ==> BoundaryOf(h.value).Ok?
  }

  /** The line ends a writer may use: LF (as saved on Unix) or CRLF. */
  predicate LineEnd(e: string) {
    e == "\n" || e == "\r\n"
  }

  lemma LineEndTerminates(e: string)
    requires LineEnd(e)
    ensures IsTerminator(e) && e != [] && IsLineBreak(e[0]) && e != ['\r']
  {
  }

  /** The headers written one per line with `ToString`, each ended by `e`. */
  function Render(hs: seq<HeaderRec>, e: string): string {
    if hs == [] then [] else HeaderLine(hs[0].name, hs[0].value) + e + Render(hs[1..], e)
  }

  /** The boundary after the headers `hs`, starting from `b`: the one of
      every accepted `Content-Type` replaces the previous one. */
  function BoundaryAfter(hs: seq<HeaderRec>, b: Option<string>): (r: Option<string>)
    ensures r == b || exists i :: 0 <= i < |hs| && hs[i].name == ContentType && BoundaryOf(hs[i].value) == Ok(r)
    decreases |hs|
  {
    if hs == [] then b
    else
      var b' := if hs[0].name == ContentType && BoundaryOf(hs[0].value).Ok?
                then BoundaryOf(hs[0].value).value else b;
      BoundaryAfter(hs[1..], b')
  }

  /** The boundary after the headers is the one of the last `Content-Type`. */
  lemma {:induction false} BoundaryAfterLast(hs: seq<HeaderRec>, b: Option<string>, i: nat)
    requires i < |hs| && hs[i].name == ContentType && BoundaryOf(hs[i].value).Ok?
    requires forall j :: i < j < |hs| ==> hs[j].name != ContentType
    ensures BoundaryAfter(hs, b) == BoundaryOf(hs[i].value).value
    decreases |hs|
  {
    var b' := if hs[0].name == ContentType && BoundaryOf(hs[0].value).Ok?
              then BoundaryOf(hs[0].value).value else b;
    assert BoundaryAfter(hs, b) == BoundaryAfter(hs[1..], b');
    if i > 0 {
      assert hs[1..][i - 1] == hs[i];
      forall j | i - 1 < j < |hs[1..]| ensures hs[1..][j].name != ContentType {
        assert hs[1..][j] == hs[j + 1];
      }
      BoundaryAfterLast(hs[1..], b', i - 1);
    } else {
      forall j | 0 <= j < |hs[1..]| ensures hs[1..][j].name != ContentType {
        assert hs[1..][j] == hs[j + 1];
      }
      BoundaryAfterNone(hs[1..], b');
    }
  }

  /** Without a `Content-Type` the boundary stays what it was. */
  lemma {:induction false} BoundaryAfterNone(hs: seq<HeaderRec>, b: Option<string>)
    requires forall j :: 0 <= j < |hs| ==> hs[j].name != ContentType
    ensures BoundaryAfter(hs, b) == b
    decreases |hs|
  {
    if hs != [] {
      BoundaryAfterNone(hs[1..], b);
    }
  }

  /** A `ToString` line starts a header with the same name and value; the
      lines after it may continue it. */
  lemma ScanHeaderLineThen(h: HeaderRec, e: string, tail: string)
    requires WellFormed(h) && LineEnd(e)
    ensures ScanHeader(HeaderLine(h.name, h.value) + e + tail) == Unfold(h.name, h.value, tail)
  {
    var line := HeaderLine(h.name, h.value);
    assert NoLineBreak(line) by {
      assert line == h.name + ": " + h.value;
      forall k | 0 <= k < |line| ensures !IsLineBreak(line[k]) {
        if k >= |h.name| + 2 { assert line[k] == h.value[k - |h.name| - 2]; }
      }
    }
    LineEndTerminates(e);
    ReadLineOfTerminated(line, e, tail);
    assert line == h.name + [':'] + [] + (" " + h.value);
    SplitFirstJoin(h.name, ':', [], " " + h.value);
    TrimPadded(" ", h.value, []);
    assert " " + h.value + [] == " " + h.value;
  }

  /** `ParseHeader` reads a `ToString` line back as the same header, and
      stops where the next line does not continue it. */
  lemma ScanHeaderLine(h: HeaderRec, e: string, rest: string)
    requires WellFormed(h) && LineEnd(e) && !Folded(rest)
    ensures ScanHeader(HeaderLine(h.name, h.value) + e + rest) == Parsed(h.name, h.value, rest)
  {
    ScanHeaderLineThen(h, e, rest);
  }

  /** `ParseHeader` throws at the end of input (`line.Length` on null), and
      returns null exactly when the line it reads is empty, the reader then
      standing right after that line. */
  lemma ScanHeaderBlank(t: string)
    ensures t == [] ==> ScanHeader(t).Broken?
    ensures ScanHeader(t).Blank? <==> ReadLineOf(t).Some? && ReadLineOf(t).value.text == []
    ensures ScanHeader(t).Blank? ==> ScanHeader(t).rest == ReadLineOf(t).value.rest
  {
  }

  /** The blank line ends the header block, whatever its terminator. */
  lemma ScanBlank(e: string, rest: string)
    requires e != [] && EndsLine(e, rest)
    ensures ScanHeader(e + rest) == Blank(rest)
  {
    ReadLineOfTerminated([], e, rest);
    assert [] + e + rest == e + rest;
  }

  /** Any header line is split at its first ':' into the name and the
      remainder, trimmed; the ':' right after the first are skipped. */
  lemma ScanHeaderAnyLine(name: string, w: string, r: string, e: string, rest: string)
    requires name != [] && ':' !in name && NoLineBreak(name)
    requires OnlyOf(w, ':') && NoLineBreak(r) && (r == [] || r[0] != ':')
    requires EndsLine(e, rest)
    ensures ScanHeader(name + ":" + w + r + e + rest) == Unfold(name, Trim(r), rest)
    ensures !Folded(rest) ==> ScanHeader(name + ":" + w + r + e + rest) == Parsed(name, Trim(r), rest)
  {
    var line := name + ":" + w + r;
    assert NoLineBreak(line) by {
      forall k | 0 <= k < |line| ensures !IsLineBreak(line[k]) {
        if k >= |name| + 1 + |w| { assert line[k] == r[k - |name| - 1 - |w|]; }
        else if k > |name| { assert line[k] == w[k - |name| - 1]; }
      }
    }
    ReadLineOfTerminated(line, e, rest);
    assert line == name + [':'] + w + r;
    SplitFirstJoin(name, ':', w, r);
  }

  /** A line without ':' is a header with that name and an empty value
      (`FromArray` with one item), which no continuation line can follow. */
  lemma ScanHeaderNoColon(name: string, e: string, rest: string)
    requires name != [] && ':' !in name && NoLineBreak(name)
    requires EndsLine(e, rest)
    ensures ScanHeader(name + e + rest) == if Folded(rest) then Broken else Parsed(name, "", rest)
  {
    ReadLineOfTerminated(name, e, rest);
    SplitFirstWhole(name, ':');
  }

  /** A line made only of ':' has no name: `header[0]` throws. */
  lemma ScanHeaderColonsOnly(w: string, e: string, rest: string)
    requires w != [] && OnlyOf(w, ':') && EndsLine(e, rest)
    ensures ScanHeader(w + e + rest) == Broken
  {
    assert NoLineBreak(w);
    ReadLineOfTerminated(w, e, rest);
    SplitFirstEmpty(w, ':');
  }

  /** ':' at the start of a line are skipped: the name is what follows them. */
  lemma ScanHeaderLeadingColons(w: string, l: string, e: string, rest: string)
    requires OnlyOf(w, ':') && l != [] && NoLineBreak(l) && EndsLine(e, rest)
    ensures ScanHeader(w + l + e + rest) == ScanHeader(l + e + rest)
  {
    assert NoLineBreak(w + l) by {
      forall k | 0 <= k < |w + l| ensures !IsLineBreak((w + l)[k]) {
        if k >= |w| { assert (w + l)[k] == l[k - |w|]; }
      }
    }
    ReadLineOfTerminated(w + l, e, rest);
    ReadLineOfTerminated(l, e, rest);
    SplitFirstSkip(w, l, ':');
  }

  /** One header of the block: it is added, then a `Content-Type` without
      boundary ends the block with an exception, and an accepted one
      replaces the boundary. */
  lemma BlockParsed(t: string, acc: seq<HeaderRec>, b: Option<string>)
    requires ScanHeader(t).Parsed?
    ensures var s := ScanHeader(t);
            var h := HeaderRec(s.name, s.value);
            HeaderBlock(t, acc, b) ==
              if !Accepted(h) then Block(acc + [h], b, Fail)
              else HeaderBlock(s.rest, acc + [h], BoundaryAfter([h], b))
  {
    var s := ScanHeader(t);
    var h := HeaderRec(s.name, s.value);
    assert [h][1..] == [];
  }

  /** Rendered headers and the blank line after them, peeled by one header. */
  lemma RenderCons(hs: seq<HeaderRec>, e: string, rest: string)
    requires hs != []
    ensures Render(hs, e) + e + rest ==
            HeaderLine(hs[0].name, hs[0].value) + e + (Render(hs[1..], e) + e + rest)
  {
  }

  /** What follows a rendered header never continues it: it is the next
      header's name or the blank line. */
  lemma RenderNotFolded(hs: seq<HeaderRec>, e: string, rest: string)
    requires forall i :: 0 <= i < |hs| ==> WellFormed(hs[i])
    requires LineEnd(e)
    ensures !Folded(Render(hs, e) + e + rest)
  {
    if hs == [] {
      RenderNotFoldedEmpty(e, rest);
    } else {
      RenderNotFoldedCons(hs, e, rest);
    }
  }
  lemma RenderNotFoldedEmpty(e: string, rest: string)
    requires LineEnd(e)
    ensures !Folded(Render([], e) + e + rest)
  {
    LineEndTerminates(e);
    assert Render([], e) + e + rest == e + rest;
    HeadOfConcat(e, rest);
  }
  lemma RenderNotFoldedCons(hs: seq<HeaderRec>, e: string, rest: string)
    requires hs != [] && WellFormed(hs[0])
    ensures !Folded(Render(hs, e) + e + rest)
  {
    var r := Render(hs, e);
    var g := hs[0];
    var line := HeaderLine(g.name, g.value);
    HeadOfConcat(g.name, ": " + g.value);
    assert line == g.name + (": " + g.value);
    HeadOfConcat(line, e + Render(hs[1..], e));
    assert r == line + (e + Render(hs[1..], e));
    HeadOfConcat(r, e);
    HeadOfConcat(r + e, rest);
  }

  lemma HeadOfConcat(a: string, b: string)
    requires a != []
    ensures (a + b)[0] == a[0]
  {
  }

  /** The boundary after one header. */
  lemma BoundaryAfterOne(h: HeaderRec, b: Option<string>)
    ensures BoundaryAfter([h], b) ==
            if h.name == ContentType && BoundaryOf(h.value).Ok? then BoundaryOf(h.value).value else b
  {
    assert [h][1..] == [];
  }

  /** The boundary after the first header and then the others is the boundary after all. */
  lemma BoundaryAfterCons(hs: seq<HeaderRec>, b: Option<string>)
    requires hs != []
    ensures BoundaryAfter(hs, b) == BoundaryAfter(hs[1..], BoundaryAfter([hs[0]], b))
  {
    assert [hs[0]][1..] == [];
  }

  /** Rendered headers followed by a blank line are read back in order
      (duplicates included), the boundary being that of the last `Content-Type`,
      and the block ends right after the blank line. */
  lemma {:induction false} RenderedBlock(hs: seq<HeaderRec>, e: string, acc: seq<HeaderRec>, b: Option<string>, rest: string)
    requires forall i :: 0 <= i < |hs| ==> WellFormed(hs[i]) && Accepted(hs[i])
    requires LineEnd(e)
    ensures HeaderBlock(Render(hs, e) + e + rest, acc, b) == Block(acc + hs, BoundaryAfter(hs, b), Ok(rest))
    decreases |hs|
  {
    if hs == [] {
      assert Render(hs, e) + e + rest == e + rest;
      ScanBlank(e, rest);
    } else {
      var h := hs[0];
      var tail := Render(hs[1..], e) + e + rest;
      RenderCons(hs, e, rest);
      RenderNotFolded(hs[1..], e, rest);
      ScanHeaderLine(h, e, tail);
      BlockParsed(Render(hs, e) + e + rest, acc, b);
      RenderedBlock(hs[1..], e, acc + [h], BoundaryAfter([h], b), rest);
      AppendFirst(acc, hs);
      BoundaryAfterCons(hs, b);
    }
  }

  lemma AppendFirst<T>(acc: seq<T>, hs: seq<T>)
    requires hs != []
    ensures acc + [hs[0]] + hs[1..] == acc + hs
  {
    assert hs == [hs[0]] + hs[1..];
  }

  /** Whatever the input, a header block read to its blank line holds the
      headers before it followed by the new ones, every `Content-Type` among
      them was accepted, and the boundary is that of the last of them. */
  lemma {:induction false} BlockBoundary(t: string, acc: seq<HeaderRec>, b: Option<string>)
    ensures var r := HeaderBlock(t, acc, b);
            |acc| <= |r.headers| && r.headers[..|acc|] == acc
    ensures var r := HeaderBlock(t, acc, b);
            r.rest.Ok? ==>
              && (forall i :: |acc| <= i < |r.headers| ==> Accepted(r.headers[i]))
              && r.boundary == BoundaryAfter(r.headers[|acc|..], b)
    decreases |t|
  {
    var s := ScanHeader(t);
    if s.Parsed? {
      var h := HeaderRec(s.name, s.value);
      BlockParsed(t, acc, b);
      if Accepted(h) {
        BlockBoundary(s.rest, acc + [h], BoundaryAfter([h], b));
        BlockStep(acc, h, b, HeaderBlock(s.rest, acc + [h], BoundaryAfter([h], b)));
      } else {
        BlockRejected(acc, h, HeaderBlock(t, acc, b));
      }
    } else {
      BlockAsIs(acc, b, HeaderBlock(t, acc, b));
    }
  }

  /** The facts of BlockBoundary carried back over one accepted header `h`. */
  lemma BlockStep(acc: seq<HeaderRec>, h: HeaderRec, b: Option<string>, r: Block)
    requires Accepted(h)
    requires |acc + [h]| <= |r.headers| && r.headers[..|acc + [h]|] == acc + [h]
    requires r.rest.Ok? ==>
               && (forall i :: |acc + [h]| <= i < |r.headers| ==> Accepted(r.headers[i]))
               && r.boundary == BoundaryAfter(r.headers[|acc + [h]|..], BoundaryAfter([h], b))
    ensures |acc| <= |r.headers| && r.headers[..|acc|] == acc
    ensures r.rest.Ok? ==>
              && (forall i :: |acc| <= i < |r.headers| ==> Accepted(r.headers[i]))
              && r.boundary == BoundaryAfter(r.headers[|acc|..], b)
  {
    PrefixStep(acc, h, r.headers);
    if r.rest.Ok? {
      AcceptedFrom(r.headers, |acc|, h);
      BoundaryFrom(r.headers, |acc|, h, b);
    }
  }

  lemma AcceptedFrom(hs: seq<HeaderRec>, n: nat, h: HeaderRec)
    requires n < |hs| && hs[n] == h && Accepted(h)
    requires forall i :: n + 1 <= i < |hs| ==> Accepted(hs[i])
    ensures forall i :: n <= i < |hs| ==> Accepted(hs[i])
  {
  }

  lemma BoundaryFrom(hs: seq<HeaderRec>, n: nat, h: HeaderRec, b: Option<string>)
    requires n < |hs| && hs[n] == h
    ensures BoundaryAfter(hs[n..], b) == BoundaryAfter(hs[n + 1..], BoundaryAfter([h], b))
  {
    BoundaryAfterCons(hs[n..], b);
    assert hs[n..][1..] == hs[n + 1..];
  }

  /** A block ended by a rejected header `h`. */
  lemma BlockRejected(acc: seq<HeaderRec>, h: HeaderRec, r: Block)
    requires r.headers == acc + [h] && r.rest.Fail?
    ensures |acc| <= |r.headers| && r.headers[..|acc|] == acc
  {
    assert r.headers[..|acc|] == acc;
  }

  /** A block ended before any new header. */
  lemma BlockAsIs(acc: seq<HeaderRec>, b: Option<string>, r: Block)
    requires r.headers == acc && r.boundary == b
    ensures |acc| <= |r.headers| && r.headers[..|acc|] == acc
    ensures r.headers[|acc|..] == [] && BoundaryAfter(r.headers[|acc|..], b) == b
  {
    assert r.headers[..|acc|] == acc;
    assert r.headers[|acc|..] == [];
  }

  /** Headers that start with `acc` and then `h`. */
  lemma PrefixStep(acc: seq<HeaderRec>, h: HeaderRec, hs: seq<HeaderRec>)
    requires |acc| + 1 <= |hs| && hs[..|acc| + 1] == acc + [h]
    ensures hs[..|acc|] == acc
    ensures hs[|acc|..] != [] && hs[|acc|..][0] == h && hs[|acc|..][1..] == hs[|acc| + 1..]
    ensures hs[|acc|] == h
  {
    assert hs[..|acc|] == hs[..|acc| + 1][..|acc|];
    assert hs[|acc|] == hs[..|acc| + 1][|acc|];
  }

  /** A `Content-Type` whose value yields no fields, or whose fields hold no
      `boundary`, ends `ParseEML` with an exception once it has been added. */
  lemma ContentTypeRejected(t: string, acc: seq<HeaderRec>, b: Option<string>)
    requires ScanHeader(t).Parsed? && ScanHeader(t).name == ContentType
    requires BoundaryOf(ScanHeader(t).value).Fail?
    ensures HeaderBlock(t, acc, b) == Block(acc + [HeaderRec(ContentType, ScanHeader(t).value)], b, Fail)
    ensures !ParseEmlFrom(t, acc, b).ok
  {
  }

  // ---------------------------------------------------------------------
  // Folded header lines

  /** The continuation lines, each ended by `e`. */
  function Continuations(ls: seq<string>, e: string): string {
    if ls == [] then [] else ls[0] + e + Continuations(ls[1..], e)
  }

  /** The value after each continuation line has been appended with `AppendValue`. */
  function Fold(v: string, ls: seq<string>): (r: string)
    requires v != []
    ensures |r| >= |v| && r[..|v|] == v
    decreases |ls|
  {
    if ls == [] then v else Fold(Appended(v, ls[0]), ls[1..])
  }

  /** Lines that start with a space or a tab continue a header with a
      non-empty value: each is trimmed and appended (after a space when the
      value ends with ';'), and the header ends before the first line that
      does not start with white space. */
  lemma {:induction false} UnfoldLines(name: string, v: string, ls: seq<string>, e: string, rest: string)
    requires v != [] && LineEnd(e)
    requires forall i :: 0 <= i < |ls| ==> NoLineBreak(ls[i]) && Folded(ls[i])
    requires !Folded(rest)
    ensures Unfold(name, v, Continuations(ls, e) + rest) == Parsed(name, Fold(v, ls), rest)
    decreases |ls|
  {
    if ls == [] {
      assert Continuations(ls, e) + rest == rest;
    } else {
      var tail := Continuations(ls[1..], e) + rest;
      assert Continuations(ls, e) + rest == ls[0] + e + tail;
      LineEndTerminates(e);
      ReadLineOfTerminated(ls[0], e, tail);
      assert (ls[0] + e + tail)[0] == ls[0][0];
      UnfoldLines(name, Appended(v, ls[0]), ls[1..], e, rest);
    }
  }

  /** A folded header reads back as one header whose value is the first
      line's value with the continuation lines appended. */
  lemma ScanFoldedHeader(h: HeaderRec, ls: seq<string>, e: string, rest: string)
    requires WellFormed(h) && h.value != [] && LineEnd(e)
    requires forall i :: 0 <= i < |ls| ==> NoLineBreak(ls[i]) && Folded(ls[i])
    requires !Folded(rest)
    ensures ScanHeader(HeaderLine(h.name, h.value) + e + (Continuations(ls, e) + rest))
            == Parsed(h.name, Fold(h.value, ls), rest)
  {
    ScanHeaderLineThen(h, e, Continuations(ls, e) + rest);
    UnfoldLines(h.name, h.value, ls, e, rest);
  }

  /** A continuation line of a header whose value is still empty makes
      `AppendValue` throw. */
  lemma FoldOnEmptyValue(name: string, t: string)
    requires Folded(t)
    ensures Unfold(name, [], t) == Broken
  {
  }

  // ---------------------------------------------------------------------
  // The header-body separator

  /** As written, `ParseEML` accepts rendered headers exactly when the line
      after the blank line that ended them is empty too: a body that starts
      right after the blank line makes it throw. */
  lemma ParseEmlSecondSeparator(hs: seq<HeaderRec>, e: string, body: string)
    requires forall i :: 0 <= i < |hs| ==> WellFormed(hs[i]) && Accepted(hs[i])
    requires LineEnd(e)
    ensures ParseEmlOf(Render(hs, e) + e + body)
            == Outcome(hs, BoundaryAfter(hs, Some("")), SeparatorEmpty(body))
  {
    RenderedBlock(hs, e, [], Some(""), body);
    assert [] + hs == hs;
  }

  /** The smallest message with a body, "Subject: Hi", a blank line and
      "Hello", is rejected by `ParseEML` as written. */
  lemma SeparatorReadTwice()
    ensures !ParseEmlOf("Subject: Hi\r\n\r\nHello").ok
    ensures ParseEmlIntended("Subject: Hi\r\n\r\nHello") == Outcome([HeaderRec("Subject", "Hi")], Some(""), true)
  {
    var h := HeaderRec("Subject", "Hi");
    SubjectHi();
    ParseEmlSecondSeparator([h], "\r\n", "Hello");
    ParseEmlRoundTrip([h], "\r\n", "Hello");
    HelloIsNotBlank();
  }

  lemma SubjectHi()
    ensures WellFormed(HeaderRec("Subject", "Hi")) && Accepted(HeaderRec("Subject", "Hi"))
    ensures Render([HeaderRec("Subject", "Hi")], "\r\n") + "\r\n" + "Hello" == "Subject: Hi\r\n\r\nHello"
    ensures BoundaryAfter([HeaderRec("Subject", "Hi")], Some("")) == Some("")
  {
    assert [HeaderRec("Subject", "Hi")][1..] == [];
  }

  lemma HelloIsNotBlank()
    ensures !SeparatorEmpty("Hello")
  {
    ReadLineOfTerminated("Hello", [], []);
    assert "Hello" + [] + [] == "Hello";
  }

  /** The intended `ParseEML` reads back rendered headers whatever body follows
      the blank line, with the boundary of the last `Content-Type`. */
  lemma ParseEmlRoundTrip(hs: seq<HeaderRec>, e: string, body: string)
    requires forall i :: 0 <= i < |hs| ==> WellFormed(hs[i]) && Accepted(hs[i])
    requires LineEnd(e)
    ensures ParseEmlIntended(Render(hs, e) + e + body) == Outcome(hs, BoundaryAfter(hs, Some("")), true)
  {
    RenderedBlock(hs, e, [], Some(""), body);
    assert [] + hs == hs;
  }

  /** The header block of a multipart/alternative message. */
  const MultipartHeaders: seq<HeaderRec> :=
    [HeaderRec("Subject", "Hi"), HeaderRec(ContentType, "multipart/alternative; boundary=\"XYZ\"")]

  /** The headers of a multipart/alternative message are read back with the
      boundary "XYZ" by the intended `ParseEML`; as written, it also demands
      that the body start with a second blank line. */
  lemma MultipartMessage(e: string, body: string)
    requires LineEnd(e)
    ensures ParseEmlIntended(Render(MultipartHeaders, e) + e + body) == Outcome(MultipartHeaders, Some("XYZ"), true)
    ensures ParseEmlOf(Render(MultipartHeaders, e) + e + body).ok <==> SeparatorEmpty(body)
  {
    var hs := MultipartHeaders;
    MultipartHeadersAccepted();
    MultipartBoundary();
    ParseEmlRoundTrip(hs, e, body);
    ParseEmlSecondSeparator(hs, e, body);
    BoundaryAfterLast(hs, Some(""), 1);
  }

  lemma MultipartHeadersAccepted()
    ensures forall i :: 0 <= i < |MultipartHeaders| ==> WellFormed(MultipartHeaders[i]) && Accepted(MultipartHeaders[i])
  {
    forall i | 0 <= i < |MultipartHeaders|
      ensures WellFormed(MultipartHeaders[i]) && Accepted(MultipartHeaders[i])
    {
      if i == 0 {
        SubjectHi();
      } else {
        MultipartBoundary();
        MultipartWellFormed();
      }
    }
  }

  lemma MultipartWellFormed()
    ensures WellFormed(HeaderRec(ContentType, "multipart/alternative; boundary=\"XYZ\""))
  {
    var a, b, c := "multipart/alternative", "; boundary=", "\"XYZ\"";
    MultipartText();
    MultipartToken();
    assert NoLineBreak(b) && NoLineBreak(c);
    NoLineBreakConcat(a, b);
    NoLineBreakConcat(a + b, c);
    HeadOfConcat(a, b);
    HeadOfConcat(a + b, c);
    LastOfConcat(a + b, c);
    ContentTypeName();
  }

  lemma ContentTypeName()
    ensures ContentType != [] && ':' !in ContentType && NoLineBreak(ContentType)
    ensures ContentType[0] == 'C'
  {
  }

  lemma LastOfConcat(a: string, b: string)
    requires b != []
    ensures (a + b)[|a + b| - 1] == b[|b| - 1]
  {
  }

  /** The intended `ParseEML` succeeds exactly when the header block ends
      with a blank line, and then every `Content-Type` has a boundary and the
      boundary is that of the last one. */
  lemma ParseEmlIntendedOk(eml: string)
    ensures ParseEmlIntended(eml).ok <==> HeaderBlock(eml, [], Some("")).rest.Ok?
    ensures ParseEmlIntended(eml).ok ==>
              && (forall i :: 0 <= i < |ParseEmlIntended(eml).headers| ==> Accepted(ParseEmlIntended(eml).headers[i]))
              && ParseEmlIntended(eml).boundary == BoundaryAfter(ParseEmlIntended(eml).headers, Some(""))
  {
    BlockBoundary(eml, [], Some(""));
    var hs := HeaderBlock(eml, [], Some("")).headers;
    assert hs[0..] == hs;
  }

  // ---------------------------------------------------------------------
  // The message object

  /** `hs` are header objects holding the names and values `rs`, in order. */
  ghost predicate Holds(hs: seq<EmailHeader>, rs: seq<HeaderRec>)
    reads hs
  {
    |hs| == |rs| && forall i :: 0 <= i < |hs| ==> hs[i].name == rs[i].name && hs[i].value == rs[i].value
  }

  class EmailMessage {
    var boundary: Option<string>
    var headers: seq<EmailHeader>
    /** The names and values of `headers`. */
    ghost var recs: seq<HeaderRec>

    ghost predicate Valid()
      reads this, headers
    {
      Holds(headers, recs)
    }

    /** `EmailMessage()`: no headers, the boundary "". */
    constructor ()
      ensures Valid() && headers == [] && recs == [] && boundary == Some("")
    {
      boundary := Some("");
      headers := [];
      recs := [];
    }

    /** `EmailMessage(string)`: a message built from the EML text; the
        constructor throws when `ParseEML` does. */
    static method FromEml(eml: string) returns (r: Result<EmailMessage>)
      ensures r.Ok? <==> ParseEmlOf(eml).ok
      ensures r.Ok? ==> fresh(r.value) && r.value.Valid()
      ensures r.Ok? ==> r.value.recs == ParseEmlOf(eml).headers && r.value.boundary == ParseEmlOf(eml).boundary
    {
      var m := new EmailMessage();
      var ok := m.ParseEml(eml);
      if !ok {
        return Fail;
      }
      return Ok(m);
    }

    /** `IsNextCharWhitespace`: peeks without moving the cursor. */
    method IsNextCharWhitespace(reader: StringReader) returns (b: bool)
      requires reader.Valid()
      ensures b <==> Folded(reader.Remaining())
      ensures b <==> reader.pos < |reader.s| && (reader.s[reader.pos] == ' ' || reader.s[reader.pos] == '\t')
    {
      var c := reader.Peek();
      b := c == ' ' as int || c == '\t' as int;
    }

    /** `ParseHeader`: `null` for the blank line, otherwise a new header with
        its continuation lines appended; `ok` is false where it throws. */
    method ParseHeader(reader: StringReader) returns (ok: bool, header: EmailHeader?)
      requires reader.Valid()
      modifies reader`pos
      ensures reader.Valid()
      ensures ok <==> !ScanHeader(old(reader.Remaining())).Broken?
      ensures ok ==> reader.Remaining() == ScanHeader(old(reader.Remaining())).rest
      ensures ok ==> (header == null <==> ScanHeader(old(reader.Remaining())).Blank?)
      ensures ok && header != null ==>
                fresh(header) && header.Valid()
                && header.name == ScanHeader(old(reader.Remaining())).name
                && header.value == ScanHeader(old(reader.Remaining())).value
    {
      ghost var t := reader.Remaining();
      var line := reader.ReadLine();
      if line.None? {
        return false, null;
      }
      if |line.value| == 0 {
        return true, null;
      }
      var parts := SplitFirst(line.value, ':');
      var made := EmailHeader.FromArray(parts);
      if made.Fail? {
        return false, null;
      }
      header := made.value;
      header.SetValue(Trim(header.value));
      assert Unfold(header.name, header.value, reader.Remaining()) == ScanHeader(t);
      var more := IsNextCharWhitespace(reader);
      if !more {
        return true, header;
      }
      ghost var prev := reader.Remaining();
      line := reader.ReadLine();
      while line.Some?
        invariant reader.Valid() && fresh(header) && header.Valid()
        invariant Unfold(header.name, header.value, prev) == ScanHeader(t)
        invariant line.Some? ==> Folded(prev) && ReadLineOf(prev) == Some(Line(line.value, reader.Remaining()))
        invariant line.None? ==> prev == [] && reader.Remaining() == []
        decreases |reader.Remaining()| + (if line.Some? then 1 else 0)
      {
        ok := header.AppendValue(line.value);
        if !ok {
          return false, null;
        }
        more := IsNextCharWhitespace(reader);
        if !more {
          break;
        }
        prev := reader.Remaining();
        line := reader.ReadLine();
      }
      return true, header;
    }

    /** `ParseEML`: reads headers up to the blank line, adding each to
        `Headers` and taking the boundary of each `Content-Type`; then reads
        one more line, which must be empty. `ok` is false where it throws. */
    method ParseEml(eml: string) returns (ok: bool)
      requires Valid()
      modifies this
      ensures Valid()
      ensures recs == ParseEmlFrom(eml, old(recs), old(boundary)).headers
      ensures boundary == ParseEmlFrom(eml, old(recs), old(boundary)).boundary
      ensures ok == ParseEmlFrom(eml, old(recs), old(boundary)).ok
    {
      var reader := new StringReader(eml);
      ghost var block := HeaderBlock(eml, recs, boundary);
      var parsed, done := true, false;
      while parsed && !done
        invariant reader.Valid() && fresh(reader) && Valid()
        invariant parsed && !done ==> HeaderBlock(reader.Remaining(), recs, boundary) == block
        invariant !parsed ==> block == Block(recs, boundary, Fail)
        invariant parsed && done ==> block == Block(recs, boundary, Ok(reader.Remaining()))
        decreases if parsed && !done then |reader.Remaining()| + 1 else 0
      {
        parsed, done := NextHeader(reader);
      }
      if !parsed {
        return false;
      }
      var line := reader.ReadLine();
      if line.None? {
        return false;
      }
      return |line.value| == 0;
    }

    /** One turn of the `while` loop of `ParseEML`: a header is read; the
        blank line ends the loop (`done`), any other header is added to
        `Headers` and, when it is a `Content-Type`, gives the boundary.
        `parsed` is false where it throws. */
    method NextHeader(reader: StringReader) returns (parsed: bool, done: bool)
      requires reader.Valid() && Valid()
      modifies this, reader`pos
      ensures reader.Valid() && Valid()
      ensures !parsed ==> HeaderBlock(old(reader.Remaining()), old(recs), old(boundary)) == Block(recs, boundary, Fail)
      ensures parsed && done ==>
                HeaderBlock(old(reader.Remaining()), old(recs), old(boundary)) == Block(recs, boundary, Ok(reader.Remaining()))
      ensures parsed && !done ==>
                HeaderBlock(old(reader.Remaining()), old(recs), old(boundary)) == HeaderBlock(reader.Remaining(), recs, boundary)
                && |reader.Remaining()| < |old(reader.Remaining())|
    {
      ghost var t := reader.Remaining();
      ghost var blk := HeaderBlock(t, recs, boundary);
      var header;
      parsed, header := ParseHeader(reader);
      if !parsed {
        assert blk == Block(recs, boundary, Fail);
        return false, true;
      }
      if header == null {
        assert blk == Block(recs, boundary, Ok(reader.Remaining()));
        return true, true;
      }
      ghost var h := HeaderRec(header.name, header.value);
      ghost var rest := reader.Remaining();
      BlockParsed(t, recs, boundary);
      BoundaryAfterOne(h, boundary);
      headers := headers + [header];
      recs := recs + [h];
      if header.name == ContentType {
        var accepted := TakeBoundary(header);
        if !accepted {
          assert blk == Block(recs, boundary, Fail);
          return false, true;
        }
      }
      assert blk == HeaderBlock(rest, recs, boundary);
      return true, false;
    }

    /** The `Content-Type` branch of `ParseEML`: `Fields` is read (and built),
        null fields throw, then `Fields["boundary"]` is read again from the
        cache and becomes the boundary; a missing key throws. */
    method TakeBoundary(header: EmailHeader) returns (ok: bool)
      requires header.Valid() && Valid()
      requires headers != [] && headers[|headers| - 1] == header && header !in headers[..|headers| - 1]
      modifies this, header
      ensures header.Valid() && Valid()
      ensures headers == old(headers) && recs == old(recs)
      ensures header.name == old(header.name) && header.value == old(header.value)
      ensures ok == BoundaryOf(header.value).Ok?
      ensures boundary == if ok then BoundaryOf(header.value).value else old(boundary)
    {
      var fields := header.GetFields();
      if fields.Fail? || fields.value.None? {
        return false;
      }
      fields := header.GetFields();
      if "boundary" !in fields.value.value {
        return false;
      }
      boundary := fields.value.value["boundary"];
      return true;
    }
  }
}
