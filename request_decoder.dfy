/** `parseClientRequest` of src/index.js:19-58: the request decoder the
    server uses. It frames the request, reads the request line and the
    headers, parses the query string of the path, and decodes a JSON body
    for `POST` and `PUT`; any other body becomes `{}`. */
module RequestDecoder {
  import opened Wrappers
  import opened JsString
  import opened Dict
  import opened JsValue
  import opened RequestParsing

  /** The object `parseClientRequest` returns (src/index.js:50-57). */
  datatype Request = Request(
    httpMethod: string,
    path: string,
    version: Option<string>,
    headers: map<string, string>,
    body: Value,
    query: map<string, Option<string>>)

  /** `path.split("?")[1]`: the text between the first and the second `?`. */
  function QueryString(path: string): Option<string>
  {
    At(Split(path, "?"), 1)
  }

  /** `const [key, value] = pair.split("=")`: the value is the text between
      the first and the second `=`, or `undefined`. */
  function QueryEntry(pair: string): (string, Option<string>)
  {
    var kv := Split(pair, "=");
    (kv[0], At(kv, 1))
  }

  /** The pieces of the query string the loop visits: none when the query
      string is missing or empty (it is falsy). */
  function QueryPairs(path: string): seq<string>
  {
    match QueryString(path)
    case Some(q) => if q == "" then [] else Split(q, "&")
    case None => []
  }

  /** The assignments the query loop performs, one per `&`-piece. */
  function QueryEntries(path: string): (es: seq<(string, Option<string>)>)
    ensures |es| == |QueryPairs(path)|
    ensures forall i :: 0 <= i < |es| ==> es[i] == QueryEntry(QueryPairs(path)[i])
  {
    var pairs := QueryPairs(path);
    seq(|pairs|, i requires 0 <= i < |pairs| => QueryEntry(pairs[i]))
  }

  /** The query loop (src/index.js:33-41): the dictionary it leaves is the
      one the `&`-pieces' assignments produce in order, and it is empty
      when the path has no query string or an empty one. */
  method ParseQuery(path: string) returns (query: map<string, Option<string>>)
    ensures query == Assigned(QueryEntries(path))
    ensures (QueryString(path).None? || QueryString(path) == Some("")) ==> query == map[]
  {
    query := map[];
    var queryParamsString := QueryString(path);
    if queryParamsString.Some? && queryParamsString.value != "" {
      var pairs := Split(queryParamsString.value, "&");
      ghost var entries := QueryEntries(path);
      var i := 0;
      while i < |pairs|
        invariant 0 <= i <= |pairs|
        invariant query == Assigned(entries[..i])
      {
        var kv := Split(pairs[i], "=");
        AssignedStep(entries, i);
        query := query[kv[0] := At(kv, 1)];
        i := i + 1;
      }
      assert entries[..|pairs|] == entries;
    }
  }

  /** The query string is absent exactly when the path has no `?`; when
      present it starts right after the first `?` and runs up to the next
      one, or to the end of the path. */
  lemma QueryStringAfterFirstMark(path: string)
    ensures QueryString(path).None? <==> '?' !in path
    ensures QueryString(path).Some? ==>
      && IndexOf(path, "?", 0).Some?
      && var i := IndexOf(path, "?", 0).value; var q := QueryString(path).value;
      && '?' !in q && i + 1 + |q| <= |path|
      && path[i + 1..i + 1 + |q|] == q
      && (i + 1 + |q| == |path| || path[i + 1 + |q|] == '?')
  {
    FirstPieceAtChar(path, '?');
    match IndexOf(path, "?", 0)
    case None =>
    case Some(i) =>
      var rest := path[i + 1..];
      assert Split(path, "?") == [path[..i]] + Split(rest, "?");
      FirstPieceAtChar(rest, '?');
      assert QueryString(path) == Some(Split(rest, "?")[0]);
  }

  /** The key of a query piece is the text before its first `=`; the value
      is absent exactly when there is no `=`, and otherwise is the text
      after the first `=` up to the next one. */
  lemma QueryEntryFirstEquals(pair: string)
    ensures var e := QueryEntry(pair);
      && '=' !in e.0 && |e.0| <= |pair| && e.0 == pair[..|e.0|]
      && (e.1.None? <==> '=' !in pair)
      && (e.1.None? ==> e.0 == pair)
      && (e.1.Some? ==>
            && '=' !in e.1.value && |e.0| + 1 + |e.1.value| <= |pair|
            && pair[..|e.0| + 1 + |e.1.value|] == e.0 + "=" + e.1.value
            && (|e.0| + 1 + |e.1.value| == |pair| || pair[|e.0| + 1 + |e.1.value|] == '='))
  {
    var kv := Split(pair, "=");
    FirstPieceAtChar(pair, '=');
    if |kv| > 1 {
      SecondPieceAtChar(pair, '=');
    }
  }

  /** A character a query parameter may hold so that it reads back
      unchanged: none of `?`, `&` and `=`. */
  predicate IsQueryText(s: string)
  {
    '?' !in s && '&' !in s && '=' !in s
  }

  /** `key=value` pieces joined by `&`. */
  function RenderQuery(params: seq<(string, string)>): string
  {
    Join(seq(|params|, i requires 0 <= i < |params| => params[i].0 + "=" + params[i].1), "&")
  }

  /** A `key=value` piece yields the key and the value. */
  lemma QueryEntryOfRendered(key: string, value: string)
    requires IsQueryText(key) && IsQueryText(value)
    ensures QueryEntry(key + "=" + value) == (key, Some(value))
  {
    JoinTwo(key, value, "=");
    SplitJoin([key, value], "=");
  }

  /** A path `base?k1=v1&k2=v2...` yields one assignment per parameter, in
      order, each with its value; so the query dictionary is the one the
      parameters produce, a later duplicate key overwriting an earlier one. */
  lemma QueryOfRendered(base: string, params: seq<(string, string)>)
    requires '?' !in base
    requires forall kv :: kv in params ==> IsQueryText(kv.0) && IsQueryText(kv.1)
    ensures QueryEntries(base + "?" + RenderQuery(params))
         == seq(|params|, i requires 0 <= i < |params| => (params[i].0, Some(params[i].1)))
  {
    if params == [] {
      assert RenderQuery(params) == "";
      JoinTwo(base, "", "?");
      SplitJoin([base, ""], "?");
      assert QueryString(base + "?" + RenderQuery(params)) == Some("");
      return;
    }
    var pieces := seq(|params|, i requires 0 <= i < |params| => params[i].0 + "=" + params[i].1);
    var q := RenderQuery(params);
    forall p | p in pieces
      ensures '?' !in p && '&' !in p && p != ""
    {
      var i :| 0 <= i < |pieces| && pieces[i] == p;
      assert params[i] in params;
      assert p[|params[i].0|] == '=';
    }
    JoinFree(pieces, "&", '?');
    assert q != "" by {
      assert pieces[0] in pieces;
      JoinStartsWithFirst(pieces, "&");
    }
    JoinTwo(base, q, "?");
    SplitJoin([base, q], "?");
    assert QueryString(base + "?" + q) == Some(q);
    SplitJoin(pieces, "&");
    assert QueryPairs(base + "?" + q) == pieces;
    forall i | 0 <= i < |params|
      ensures QueryEntries(base + "?" + q)[i] == (params[i].0, Some(params[i].1))
    {
      assert params[i] in params;
      QueryEntryOfRendered(params[i].0, params[i].1);
    }
  }

  /** The query of `GET /?a=1&b=2 HTTP/1.1` maps `a` to `1` and `b` to `2`. */
  lemma ExampleQuery()
    ensures Assigned(QueryEntries("/?a=1&b=2")) == map["a" := Some("1"), "b" := Some("2")]
  {
    ExampleQueryEntries();
    var es := QueryEntries("/?a=1&b=2");
    assert es[..2] == es;
    assert es[..1][..0] == [];
    AssignedStep(es, 0);
    AssignedStep(es, 1);
  }

  /** A helper for `ExampleQuery`: the two assignments of `/?a=1&b=2`. */
  lemma ExampleQueryEntries()
    ensures var es := QueryEntries("/?a=1&b=2");
      |es| == 2 && es[0] == ("a", Some("1")) && es[1] == ("b", Some("2"))
  {
    var params := [("a", "1"), ("b", "2")];
    ExampleRendered();
    forall kv | kv in params
      ensures IsQueryText(kv.0) && IsQueryText(kv.1)
    {
      ExampleQueryText();
    }
    QueryOfRendered("/", params);
    var want := seq(|params|, i requires 0 <= i < |params| => (params[i].0, Some(params[i].1)));
    assert QueryEntries("/?a=1&b=2") == want;
    assert |want| == 2 && want[0] == ("a", Some("1")) && want[1] == ("b", Some("2"));
  }

  /** A helper for `ExampleQuery`: the path `/?a=1&b=2` as the renderer
      writes it. */
  lemma ExampleRendered()
    ensures "/" + "?" + RenderQuery([("a", "1"), ("b", "2")]) == "/?a=1&b=2"
  {
    var params := [("a", "1"), ("b", "2")];
    var pieces := seq(|params|, i requires 0 <= i < |params| => params[i].0 + "=" + params[i].1);
    assert |pieces| == 2;
    assert pieces[0] == "a" + "=" + "1" == "a=1";
    assert pieces[1] == "b" + "=" + "2" == "b=2";
    assert pieces == ["a=1", "b=2"];
    JoinTwo("a=1", "b=2", "&");
  }

  /** A helper for `ExampleQuery`: its keys and values are query-safe. */
  lemma ExampleQueryText()
    ensures IsQueryText("a") && IsQueryText("1") && IsQueryText("b") && IsQueryText("2")
  {
  }

  /** The body `parseClientRequest` returns: the decoded JSON when the
      request asks for it, `{}` otherwise. */
  function ParsedBody(httpMethod: string, headers: map<string, string>, body: Option<string>, jsonParse: JsonParser): Option<Value>
  {
    if WantsJson(httpMethod, headers) then jsonParse(BodyText(body)) else Some(Obj([]))
  }

  /** What `parseClientRequest(data)` returns or throws: a `TypeError`
      when the request line has no path, else a `SyntaxError` when a JSON
      body is wanted and does not parse, else the request whose fields the
      shared steps read, whose query is the query loop's dictionary and
      whose body is `{}` unless a JSON body is wanted. */
  ghost function Decoded(data: string, jsonParse: JsonParser): Result<Request, DecodeError>
  {
    var f := SplitFrame(data);
    var header := SplitHeader(f.header);
    var line := ParseRequestLine(header.0);
    var headers := Assigned(HeaderEntries(header.1));
    if line.path.None? then Err(PathUndefined)
    else
      match ParsedBody(line.httpMethod, headers, f.body, jsonParse)
      case None => Err(InvalidJson)
      case Some(body) =>
        Ok(Request(line.httpMethod, line.path.value, line.version, headers, body,
                   Assigned(QueryEntries(line.path.value))))
  }

  /** `parseClientRequest(data)` (src/index.js:19-58), step by step as the
      source runs it. */
  method ParseClientRequest(data: string, jsonParse: JsonParser) returns (r: Result<Request, DecodeError>)
    ensures r == Decoded(data, jsonParse)
  {
    var frame := SplitFrame(data);
    var header := SplitHeader(frame.header);
    var line := ParseRequestLine(header.0);
    var headers := ParseHeaderLines(header.1);
    if line.path.None? {
      return Err(PathUndefined);
    }
    var path := line.path.value;
    var query := ParseQuery(path);
    var parsedBody := Obj([]);
    if line.httpMethod == "POST" || line.httpMethod == "PUT" {
      if "Content-Type" in headers && headers["Content-Type"] == JsonType {
        var parsed := jsonParse(BodyText(frame.body));
        if parsed.None? {
          return Err(InvalidJson);
        }
        parsedBody := parsed.value;
      }
    }
    return Ok(Request(line.httpMethod, path, line.version, headers, parsedBody, query));
  }

  /** The decoder throws a `TypeError` exactly when the request line (the
      text before the first line break) has no space, and a `SyntaxError`
      exactly when the path is there, the request is a `POST` or `PUT`
      declaring a JSON body, and that body does not parse. A request that
      declares no JSON body and decodes gets the body `{}`, and one that
      declares a JSON body and decodes gets the parser's value. */
  lemma DecodedErrors(data: string, jsonParse: JsonParser)
    ensures var requestLine := SplitHeader(SplitFrame(data).header).0;
      Decoded(data, jsonParse) == Err(PathUndefined) <==> ' ' !in requestLine
    ensures var f := SplitFrame(data);
      var header := SplitHeader(f.header);
      var line := ParseRequestLine(header.0);
      var headers := Assigned(HeaderEntries(header.1));
      Decoded(data, jsonParse) == Err(InvalidJson) <==>
        line.path.Some? && WantsJson(line.httpMethod, headers) && jsonParse(BodyText(f.body)).None?
    ensures var header := SplitHeader(SplitFrame(data).header);
      var line := ParseRequestLine(header.0);
      var headers := Assigned(HeaderEntries(header.1));
      !WantsJson(line.httpMethod, headers) && Decoded(data, jsonParse).Ok? ==>
        Decoded(data, jsonParse).value.body == Obj([])
    ensures var f := SplitFrame(data);
      var header := SplitHeader(f.header);
      var line := ParseRequestLine(header.0);
      WantsJson(line.httpMethod, Assigned(HeaderEntries(header.1))) && Decoded(data, jsonParse).Ok? ==>
        && jsonParse(BodyText(f.body)).Some?
        && Decoded(data, jsonParse).value.body == jsonParse(BodyText(f.body)).value
  {
    RequestLineTokens(SplitHeader(SplitFrame(data).header).0);
  }

  /** Decoding a request as a client writes it recovers the method, the
      path (query string included), the version and the headers (a later
      duplicate overwriting an earlier one); a request that declares no JSON
      body, whatever its method, gets the body `{}`. */
  lemma DecodeRendered(m: string, p: string, v: string, hs: seq<(string, string)>,
                       body: string, jsonParse: JsonParser)
    requires IsToken(m) && IsToken(p) && IsToken(v)
    requires forall h :: h in hs ==> IsPlainHeader(h)
    requires !Contains(body, BlankLine)
    requires !WantsJson(m, Assigned(hs))
    ensures Decoded(RenderHead(m, p, v, hs) + BlankLine + body, jsonParse)
         == Ok(Request(m, p, Some(v), Assigned(hs), Obj([]), Assigned(QueryEntries(p))))
  {
    ParseRendered(m, p, v, hs, body);
  }

  /** A `POST` or `PUT` that declares `Content-Type: application/json` gets
      the decoded JSON body, or fails when the body does not parse. */
  lemma DecodeRenderedJson(m: string, p: string, v: string, hs: seq<(string, string)>,
                           body: string, jsonParse: JsonParser)
    requires IsToken(m) && IsToken(p) && IsToken(v)
    requires forall h :: h in hs ==> IsPlainHeader(h)
    requires !Contains(body, BlankLine)
    requires m == "POST" || m == "PUT"
    requires "Content-Type" in Assigned(hs) && Assigned(hs)["Content-Type"] == JsonType
    ensures Decoded(RenderHead(m, p, v, hs) + BlankLine + body, jsonParse)
         == match jsonParse(body)
            case None => Err(InvalidJson)
            case Some(json) => Ok(Request(m, p, Some(v), Assigned(hs), json, Assigned(QueryEntries(p))))
  {
    ParseRendered(m, p, v, hs, body);
  }
}
