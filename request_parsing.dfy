/** The steps both request decoders share (src/index.js:21-30 and
    index.js:21-30 are the same code): framing the request text at the first
    blank line, cutting the header block into lines, splitting the request
    line into method, path and version, and filling the header dictionary.
    Also the body policy condition both decoders test. */
module RequestParsing {
  import opened Wrappers
  import opened JsString
  import opened Dict
  import opened JsValue

  const BlankLine: string := "\r\n\r\n"
  const LineBreak: string := "\r\n"

  /** The two exceptions a decoder can throw: a `TypeError` when the request
      line has no path (`path.split` on `undefined`) and a `SyntaxError` from
      `JSON.parse`. */
  datatype DecodeError = PathUndefined | InvalidJson

  /** `JSON.parse`, supplied by the platform: `None` when it throws. */
  type JsonParser = string -> Option<Value>

  /** `const [header, body] = request.split("\r\n\r\n")`. */
  datatype Frame = Frame(header: string, body: Option<string>)

  /** Frames a request at its blank lines. */
  function SplitFrame(request: string): Frame
  {
    var pieces := Split(request, BlankLine);
    Frame(pieces[0], At(pieces, 1))
  }

  /** The header block is the text before the first blank line (all of the
      request when there is none), and the body is the text between the
      first and the second blank line, absent when there is no blank line. */
  lemma SplitFrameFirstBlankLine(request: string)
    ensures var f := SplitFrame(request);
      && |f.header| <= |request| && f.header == request[..|f.header|]
      && (forall k: nat :: k < |f.header| ==> !MatchAt(request, BlankLine, k))
      && (f.body.None? <==> !Contains(request, BlankLine))
      && (f.body.None? ==> f.header == request)
      && (f.body.Some? ==> MatchAt(request, BlankLine, |f.header|))
      && (f.body.Some? ==>
            var rest := request[|f.header| + |BlankLine|..];
            && |f.body.value| <= |rest| && f.body.value == rest[..|f.body.value|]
            && (forall k: nat :: k < |f.body.value| ==> !MatchAt(rest, BlankLine, k))
            && (|f.body.value| == |rest| || MatchAt(rest, BlankLine, |f.body.value|)))
  {
    var pieces := Split(request, BlankLine);
    SplitFirst(request, BlankLine);
    SplitSingle(request, BlankLine);
    if |pieces| > 1 {
      var rest := request[|pieces[0]| + |BlankLine|..];
      SplitFirst(rest, BlankLine);
    }
  }

  /** `const [requestLine, ...headerLines] = header.split("\r\n")`: the
      header block is the request line and the header lines joined by line
      breaks, and no line holds a line break. */
  function SplitHeader(header: string): (string, seq<string>)
  {
    var lines := Split(header, LineBreak);
    (lines[0], lines[1..])
  }

  /** The header block is the request line and the header lines joined by
      line breaks, and no line holds a line break. */
  lemma SplitHeaderLines(header: string)
    ensures var r := SplitHeader(header);
      && Join([r.0] + r.1, LineBreak) == header
      && !Contains(r.0, LineBreak)
      && (forall l :: l in r.1 ==> !Contains(l, LineBreak))
  {
    var lines := Split(header, LineBreak);
    JoinSplit(header, LineBreak);
    SplitPiecesFree(header, LineBreak);
    assert lines == [lines[0]] + lines[1..];
    assert lines[0] in lines;
  }

  /** `const [method, path, version] = requestLine.split(" ")`. */
  datatype RequestLine = RequestLine(httpMethod: string, path: Option<string>, version: Option<string>)

  /** Splits the request line at single spaces and keeps the first three
      tokens, `undefined` standing for a missing one. */
  function ParseRequestLine(line: string): RequestLine
  {
    var tokens := Split(line, " ");
    RequestLine(tokens[0], At(tokens, 1), At(tokens, 2))
  }

  /** The method is the text before the first space (the whole line when
      there is none), the path is absent exactly when the line has no space,
      otherwise it runs from the first space to the second one or to the end
      of the line, and the version is present exactly when a second space
      follows the path; `ParseRequestLineOfTokens` gives the version's text. */
  lemma RequestLineTokens(line: string)
    ensures var r := ParseRequestLine(line);
      && ' ' !in r.httpMethod && |r.httpMethod| <= |line| && r.httpMethod == line[..|r.httpMethod|]
      && (r.path.None? <==> ' ' !in line)
      && (r.path.None? ==> r.httpMethod == line && r.version.None?)
      && (r.path.Some? ==>
            var n := |r.httpMethod| + 1 + |r.path.value|;
            && ' ' !in r.path.value
            && n <= |line|
            && line[..n] == r.httpMethod + " " + r.path.value
            && (n == |line| || line[n] == ' ')
            && (r.version.Some? <==> n < |line|))
      && (r.version.Some? ==> ' ' !in r.version.value)
  {
    var tokens := Split(line, " ");
    FirstPieceAtChar(line, ' ');
    if |tokens| > 1 {
      SecondPieceAtChar(line, ' ');
      if |tokens| > 2 {
        PieceFreeOfChar(line, ' ', 2);
      }
    }
  }

  /** `const [headerKey, ...headerContent] = line.split(":")` and
      `headerContent.join(":").trim()`: the key is the text before the first
      colon and the value the trimmed text after it, later colons included;
      a line without a colon is a key with the empty value. */
  function HeaderEntry(line: string): (string, string)
  {
    var parts := Split(line, ":");
    (parts[0], Trim(Join(parts[1..], ":")))
  }

  /** The key is the text before the first colon and the value the trimmed
      text after it; a line without a colon is a key with the empty value. */
  lemma HeaderEntryFirstColon(line: string)
    ensures var e := HeaderEntry(line);
      && ':' !in e.0 && |e.0| <= |line| && e.0 == line[..|e.0|]
      && (':' in line ==> |e.0| < |line| && line[|e.0|] == ':' && e.1 == Trim(line[|e.0| + 1..]))
      && (':' !in line ==> e == (line, ""))
  {
    var parts := Split(line, ":");
    ColonPieces(line);
    var e := HeaderEntry(line);
    assert e == (parts[0], Trim(Join(parts[1..], ":")));
    if |parts| == 1 {
      assert parts[1..] == [];
      assert Trim(Join([], ":")) == "";
    }
  }

  /** The pieces of a line split at colons: the first is the colon-free text
      before the first colon, and the others join back into the rest. */
  lemma ColonPieces(line: string)
    ensures var parts := Split(line, ":");
      && ':' !in parts[0] && |parts[0]| <= |line| && parts[0] == line[..|parts[0]|]
      && (|parts| > 1 <==> ':' in line)
      && (|parts| == 1 ==> parts[0] == line)
      && (|parts| > 1 ==>
            |parts[0]| < |line| && line[|parts[0]|] == ':'
            && Join(parts[1..], ":") == line[|parts[0]| + 1..])
  {
    var parts := Split(line, ":");
    FirstPieceAtChar(line, ':');
    if |parts| > 1 {
      JoinSplit(line[|parts[0]| + 1..], ":");
    }
  }

  /** The assignments the header loop performs, one per header line. */
  function HeaderEntries(lines: seq<string>): (es: seq<(string, string)>)
    ensures |es| == |lines|
    ensures forall i :: 0 <= i < |lines| ==> es[i] == HeaderEntry(lines[i])
  {
    seq(|lines|, i requires 0 <= i < |lines| => HeaderEntry(lines[i]))
  }

  /** The header loop (lines 26-30 of both files): the dictionary it leaves
      is the one the header lines' assignments produce in order. */
  method ParseHeaderLines(lines: seq<string>) returns (headers: map<string, string>)
    ensures headers == Assigned(HeaderEntries(lines))
  {
    headers := map[];
    ghost var entries := HeaderEntries(lines);
    var i := 0;
    while i < |lines|
      invariant 0 <= i <= |lines|
      invariant headers == Assigned(entries[..i])
    {
      var e := HeaderEntry(lines[i]);
      assert e == entries[i];
      AssignedStep(entries, i);
      headers := headers[e.0 := e.1];
      i := i + 1;
    }
    assert entries[..|lines|] == entries;
  }

  /** Every header line's key is a key of the dictionary, every key comes
      from some line, and the value kept for a key is that of the last line
      with that key. */
  lemma HeaderMapLastWins(lines: seq<string>)
    ensures var headers := Assigned(HeaderEntries(lines));
      && (forall k :: k in headers <==> exists i :: 0 <= i < |lines| && HeaderEntry(lines[i]).0 == k)
      && (forall j :: 0 <= j < |lines| && IsLastKey(lines, j) ==>
            HeaderEntry(lines[j]).0 in headers && headers[HeaderEntry(lines[j]).0] == HeaderEntry(lines[j]).1)
  {
    var entries := HeaderEntries(lines);
    var headers := Assigned(entries);
    forall k
      ensures k in headers <==> exists i :: 0 <= i < |lines| && HeaderEntry(lines[i]).0 == k
    {
      AssignedKeys(entries, k);
    }
    forall j | 0 <= j < |lines| && IsLastKey(lines, j)
      ensures HeaderEntry(lines[j]).0 in headers && headers[HeaderEntry(lines[j]).0] == HeaderEntry(lines[j]).1
    {
      AssignedLastWins(entries, j);
    }
  }

  /** True when no header line after line `j` has the same key. */
  predicate IsLastKey(lines: seq<string>, j: nat)
    requires j < |lines|
  {
    forall l :: j < l < |lines| ==> HeaderEntry(lines[l]).0 != HeaderEntry(lines[j]).0
  }

  /** The body policy condition at src/index.js:44-45 and index.js:34-35: the
      method is exactly `POST` or `PUT` and the header named exactly
      `Content-Type` has exactly the value `application/json`. */
  predicate WantsJson(httpMethod: string, headers: map<string, string>)
  {
    (httpMethod == "POST" || httpMethod == "PUT") && "Content-Type" in headers && headers["Content-Type"] == JsonType
  }

  /** The text `JSON.parse(body)` reads: JavaScript converts a missing body
      (`undefined`) to the string "undefined". */
  function BodyText(body: Option<string>): string
  {
    match body
    case Some(b) => b
    case None => "undefined"
  }

  // Requests as a client writes them, and what the shared steps recover
  // from them.

  /** A token of the request line: no space and no carriage return. */
  predicate IsToken(s: string)
  {
    ' ' !in s && '\r' !in s
  }

  /** A header a client can send so that it reads back unchanged: the name
      has no colon, and neither part has a carriage return or surrounding
      white space in the value. */
  predicate IsPlainHeader(h: (string, string))
  {
    ':' !in h.0 && '\r' !in h.0 && '\r' !in h.1 && IsTrimmed(h.1)
  }

  /** `Name: value` lines. */
  function RenderHeaderLines(hs: seq<(string, string)>): (lines: seq<string>)
    ensures |lines| == |hs|
    ensures forall i :: 0 <= i < |hs| ==> lines[i] == hs[i].0 + ": " + hs[i].1
  {
    seq(|hs|, i requires 0 <= i < |hs| => hs[i].0 + ": " + hs[i].1)
  }

  /** The header block: the request line and the header lines, separated
      by line breaks. */
  function RenderHead(m: string, p: string, v: string, hs: seq<(string, string)>): string
  {
    Join([m + " " + p + " " + v] + RenderHeaderLines(hs), LineBreak)
  }

  /** A join of non-empty lines without carriage returns has no blank line
      inside it, whatever follows it. */
  lemma {:induction false} NoBlankLineInLines(lines: seq<string>, t: string, k: nat)
    requires |lines| >= 1
    requires forall l :: l in lines ==> |l| >= 1 && '\r' !in l
    requires k < |Join(lines, LineBreak)|
    ensures !MatchAt(Join(lines, LineBreak) + t, BlankLine, k)
    decreases |lines|
  {
    var l0 := lines[0];
    assert l0 in lines;
    var s := Join(lines, LineBreak) + t;
    if |lines| == 1 {
      assert s[k] == l0[k];
      assert l0[k] in l0;
      MismatchAt(s, BlankLine, k, 0);
    } else {
      var tail := Join(lines[1..], LineBreak);
      assert s == l0 + LineBreak + (tail + t);
      if k < |l0| {
        assert s[k] == l0[k];
        assert l0[k] in l0;
        MismatchAt(s, BlankLine, k, 0);
      } else if k == |l0| {
        assert lines[1] in lines;
        assert tail[..|lines[1]|] == lines[1];
        assert s[k + 2] == lines[1][0];
        assert lines[1][0] in lines[1];
        MismatchAt(s, BlankLine, k, 2);
      } else if k == |l0| + 1 {
        assert s[k] == '\n';
        MismatchAt(s, BlankLine, k, 0);
      } else {
        forall l | l in lines[1..] ensures |l| >= 1 && '\r' !in l {
          assert l in lines;
        }
        NoBlankLineInLines(lines[1..], t, k - |l0| - 2);
        MatchInSuffix(s, BlankLine, |l0| + 2, k - |l0| - 2);
        assert s[|l0| + 2..] == tail + t;
      }
    }
  }

  /** A join of lines starts with its first line. */
  lemma JoinStartsWithFirst(lines: seq<string>, sep: string)
    requires |lines| >= 1
    ensures |lines[0]| <= |Join(lines, sep)| && Join(lines, sep)[..|lines[0]|] == lines[0]
  {
  }

  /** Framing a client's request recovers its header block and its body,
      provided the body has no blank line of its own. */
  lemma FrameOfRendered(lines: seq<string>, body: string)
    requires |lines| >= 1
    requires forall l :: l in lines ==> |l| >= 1 && '\r' !in l
    requires !Contains(body, BlankLine)
    ensures SplitFrame(Join(lines, LineBreak) + BlankLine + body) == Frame(Join(lines, LineBreak), Some(body))
  {
    var head := Join(lines, LineBreak);
    var s := head + BlankLine + body;
    FirstBlankLineAfterHead(lines, body);
    SplitAtFirstMatch(s, BlankLine, |head|);
    assert s[..|head|] == head;
    assert s[|head| + |BlankLine|..] == body;
    SplitWithout(body, BlankLine);
    assert Split(s, BlankLine) == [head, body];
  }

  /** The first blank line of a client's request is the one that ends its
      header block. */
  lemma FirstBlankLineAfterHead(lines: seq<string>, body: string)
    requires |lines| >= 1
    requires forall l :: l in lines ==> |l| >= 1 && '\r' !in l
    ensures var head := Join(lines, LineBreak);
      IndexOf(head + BlankLine + body, BlankLine, 0) == Some(|head|)
  {
    var head := Join(lines, LineBreak);
    var s := head + BlankLine + body;
    forall k: nat | k < |head|
      ensures !MatchAt(s, BlankLine, k)
    {
      NoBlankLineInLines(lines, BlankLine + body, k);
      assert s == head + (BlankLine + body);
    }
    assert MatchAt(s, BlankLine, |head|) by {
      assert s[|head|..|head| + 4] == BlankLine;
    }
    IndexOfIs(s, BlankLine, 0, |head|);
  }

  /** Cutting a client's header block into lines recovers the request line
      and the header lines. */
  lemma SplitHeaderOfRendered(lines: seq<string>)
    requires |lines| >= 1
    requires forall l :: l in lines ==> '\r' !in l
    ensures SplitHeader(Join(lines, LineBreak)) == (lines[0], lines[1..])
  {
    SplitJoin(lines, LineBreak);
  }

  /** Space-free tokens joined by single spaces yield the first token as
      the method and the second and third as path and version, `undefined`
      for one that is missing; tokens after the third are dropped. */
  lemma ParseRequestLineOfTokens(tokens: seq<string>)
    requires |tokens| >= 1
    requires forall t :: t in tokens ==> ' ' !in t
    ensures ParseRequestLine(Join(tokens, " ")) == RequestLine(tokens[0], At(tokens, 1), At(tokens, 2))
  {
    SplitJoin(tokens, " ");
  }

  /** A `Name: value` line yields the name and the value. */
  lemma HeaderEntryOfRendered(name: string, value: string)
    requires ':' !in name && IsTrimmed(value)
    ensures HeaderEntry(name + ": " + value) == (name, value)
  {
    var line := name + ": " + value;
    var rest := [' '] + value;
    assert line == name + [':'] + rest;
    forall k: nat | k < |name|
      ensures !MatchAt(line, ":", k)
    {
      assert line[k] == name[k];
      assert name[k] in name;
    }
    assert MatchAt(line, ":", |name|) by {
      assert line[|name|..|name| + 1] == ":";
    }
    IndexOfIs(line, ":", 0, |name|);
    assert line[..|name|] == name;
    assert line[|name| + 1..] == rest;
    assert Split(line, ":") == [name] + Split(rest, ":");
    JoinSplit(rest, ":");
    assert IsJsWhiteSpace(' ');
    TrimPadded([' '], value, []);
    assert [' '] + value + [] == rest;
  }

  /** The lines of a client's header block are non-empty and have no
      carriage return. */
  lemma RenderedLinesPlain(m: string, p: string, v: string, hs: seq<(string, string)>)
    requires IsToken(m) && IsToken(p) && IsToken(v)
    requires forall h :: h in hs ==> IsPlainHeader(h)
    ensures forall l :: l in [m + " " + p + " " + v] + RenderHeaderLines(hs) ==> |l| >= 1 && '\r' !in l
  {
    var requestLine := m + " " + p + " " + v;
    var hl := RenderHeaderLines(hs);
    forall l | l in [requestLine] + hl
      ensures |l| >= 1 && '\r' !in l
    {
      if l == requestLine {
        assert requestLine[|m|] == ' ';
      } else {
        assert l in hl;
        var i :| 0 <= i < |hl| && hl[i] == l;
        assert hs[i] in hs;
        assert l == hs[i].0 + ": " + hs[i].1;
        assert l[|hs[i].0|] == ':';
      }
    }
  }

  /** The request line `m p v` yields its three tokens. */
  lemma RequestLineOfRendered(m: string, p: string, v: string)
    requires IsToken(m) && IsToken(p) && IsToken(v)
    ensures ParseRequestLine(m + " " + p + " " + v) == RequestLine(m, Some(p), Some(v))
  {
    assert Join([m, p, v], " ") == m + " " + p + " " + v by {
      assert [m, p, v][1..] == [p, v];
      assert [p, v][1..] == [v];
      assert Join([p, v], " ") == p + " " + v;
    }
    ParseRequestLineOfTokens([m, p, v]);
  }

  /** The header lines of a client's request yield its headers. */
  lemma HeaderEntriesOfRendered(hs: seq<(string, string)>)
    requires forall h :: h in hs ==> IsPlainHeader(h)
    ensures HeaderEntries(RenderHeaderLines(hs)) == hs
  {
    var hl := RenderHeaderLines(hs);
    forall i | 0 <= i < |hs|
      ensures HeaderEntries(hl)[i] == hs[i]
    {
      assert hs[i] in hs;
      HeaderEntryOfRendered(hs[i].0, hs[i].1);
    }
  }

  /** What the shared steps make of a request as a client writes it: the
      header block and body are recovered, the request line is recovered
      token by token, and the header lines yield the client's headers, so
      the header dictionary is the one they produce, a later header
      overwriting an earlier one. */
  lemma ParseRendered(m: string, p: string, v: string, hs: seq<(string, string)>, body: string)
    requires IsToken(m) && IsToken(p) && IsToken(v)
    requires forall h :: h in hs ==> IsPlainHeader(h)
    requires !Contains(body, BlankLine)
    ensures var f := SplitFrame(RenderHead(m, p, v, hs) + BlankLine + body);
      && f == Frame(RenderHead(m, p, v, hs), Some(body))
      && SplitHeader(f.header) == (m + " " + p + " " + v, RenderHeaderLines(hs))
      && ParseRequestLine(m + " " + p + " " + v) == RequestLine(m, Some(p), Some(v))
      && HeaderEntries(RenderHeaderLines(hs)) == hs
  {
    var lines := [m + " " + p + " " + v] + RenderHeaderLines(hs);
    RenderedLinesPlain(m, p, v, hs);
    FrameOfRendered(lines, body);
    SplitHeaderOfRendered(lines);
    assert lines[1..] == RenderHeaderLines(hs);
    RequestLineOfRendered(m, p, v);
    HeaderEntriesOfRendered(hs);
  }
}
