/** `parseClientRequest` of index.js:19-43: the earlier request decoder. It
    shares framing, request-line and header parsing with the later one but
    keeps the raw body text (unless a JSON body is wanted), has no query
    parsing, and so never fails on a request line without a path. */
module LegacyDecoder {
  import opened Wrappers
  import opened JsString
  import opened Dict
  import opened JsValue
  import opened RequestParsing

  /** The object this `parseClientRequest` returns (index.js:40-42); a
      missing path or version is `undefined`. */
  datatype LegacyRequest = LegacyRequest(
    httpMethod: string,
    path: Option<string>,
    version: Option<string>,
    headers: map<string, string>,
    body: Value)

  /** `let parsedBody = body`: the raw body segment, `undefined` when the
      request has no blank line. */
  function RawBody(body: Option<string>): Value
  {
    match body
    case Some(b) => Str(b)
    case None => Undefined
  }

  /** What this `parseClientRequest(data)` returns or throws: a
      `SyntaxError` when a JSON body is wanted and does not parse, else the
      request whose fields the shared steps read and whose body is the
      decoded JSON when wanted and the raw body segment otherwise. */
  ghost function LegacyDecoded(data: string, jsonParse: JsonParser): Result<LegacyRequest, DecodeError>
  {
    var f := SplitFrame(data);
    var header := SplitHeader(f.header);
    var line := ParseRequestLine(header.0);
    var headers := Assigned(HeaderEntries(header.1));
    if WantsJson(line.httpMethod, headers) then
      match jsonParse(BodyText(f.body))
      case None => Err(InvalidJson)
      case Some(json) => Ok(LegacyRequest(line.httpMethod, line.path, line.version, headers, json))
    else
      Ok(LegacyRequest(line.httpMethod, line.path, line.version, headers, RawBody(f.body)))
  }

  /** `parseClientRequest(data)` (index.js:19-43), step by step as the
      source runs it. */
  method ParseClientRequest(data: string, jsonParse: JsonParser) returns (r: Result<LegacyRequest, DecodeError>)
    ensures r == LegacyDecoded(data, jsonParse)
  {
    var frame := SplitFrame(data);
    var header := SplitHeader(frame.header);
    var line := ParseRequestLine(header.0);
    var headers := ParseHeaderLines(header.1);
    var parsedBody := RawBody(frame.body);
    if line.httpMethod == "POST" || line.httpMethod == "PUT" {
      if "Content-Type" in headers && headers["Content-Type"] == JsonType {
        var parsed := jsonParse(BodyText(frame.body));
        if parsed.None? {
          return Err(InvalidJson);
        }
        parsedBody := parsed.value;
      }
    }
    return Ok(LegacyRequest(line.httpMethod, line.path, line.version, headers, parsedBody));
  }

  /** The only failure is a JSON body that does not parse: a request line
      without a path or version decodes, with those fields missing, and a
      request that declares no JSON body (any method other than `POST` and
      `PUT`, or one of them without `Content-Type: application/json`)
      always decodes, keeping the body segment unchanged; a declared JSON
      body that decodes is the parser's value. */
  lemma LegacyDecodedFailsOnlyOnJson(data: string, jsonParse: JsonParser)
    ensures var f := SplitFrame(data);
      var header := SplitHeader(f.header);
      var line := ParseRequestLine(header.0);
      var headers := Assigned(HeaderEntries(header.1));
      LegacyDecoded(data, jsonParse).Err? <==>
        WantsJson(line.httpMethod, headers) && jsonParse(BodyText(f.body)).None?
    ensures LegacyDecoded(data, jsonParse).Err? ==> LegacyDecoded(data, jsonParse).error == InvalidJson
    ensures var f := SplitFrame(data);
      var header := SplitHeader(f.header);
      var line := ParseRequestLine(header.0);
      !WantsJson(line.httpMethod, Assigned(HeaderEntries(header.1))) ==>
        && LegacyDecoded(data, jsonParse).Ok?
        && LegacyDecoded(data, jsonParse).value.body == RawBody(f.body)
    ensures var f := SplitFrame(data);
      var header := SplitHeader(f.header);
      var line := ParseRequestLine(header.0);
      WantsJson(line.httpMethod, Assigned(HeaderEntries(header.1))) && LegacyDecoded(data, jsonParse).Ok? ==>
        && jsonParse(BodyText(f.body)).Some?
        && LegacyDecoded(data, jsonParse).value.body == jsonParse(BodyText(f.body)).value
    ensures var header := SplitHeader(SplitFrame(data).header);
      LegacyDecoded(data, jsonParse).Ok? ==>
        (LegacyDecoded(data, jsonParse).value.path.None? <==> ' ' !in header.0)
  {
    RequestLineTokens(SplitHeader(SplitFrame(data).header).0);
  }

  /** Decoding a request as a client writes it recovers the method, the
      path, the version, the headers (a later duplicate overwriting an
      earlier one) and, when no JSON body is declared, the body text
      unchanged. */
  lemma LegacyDecodeRendered(m: string, p: string, v: string, hs: seq<(string, string)>,
                             body: string, jsonParse: JsonParser)
    requires IsToken(m) && IsToken(p) && IsToken(v)
    requires forall h :: h in hs ==> IsPlainHeader(h)
    requires !Contains(body, BlankLine)
    requires !WantsJson(m, Assigned(hs))
    ensures LegacyDecoded(RenderHead(m, p, v, hs) + BlankLine + body, jsonParse)
         == Ok(LegacyRequest(m, Some(p), Some(v), Assigned(hs), Str(body)))
  {
    ParseRendered(m, p, v, hs, body);
  }

  /** Decoding a client's `POST` or `PUT` that declares a JSON body
      recovers the method, the path, the version and the headers, with the
      parsed body; it fails exactly when the body does not parse. */
  lemma LegacyDecodeRenderedJson(m: string, p: string, v: string, hs: seq<(string, string)>,
                                 body: string, jsonParse: JsonParser)
    requires IsToken(m) && IsToken(p) && IsToken(v)
    requires forall h :: h in hs ==> IsPlainHeader(h)
    requires !Contains(body, BlankLine)
    requires WantsJson(m, Assigned(hs))
    ensures LegacyDecoded(RenderHead(m, p, v, hs) + BlankLine + body, jsonParse)
         == match jsonParse(body)
            case None => Err(InvalidJson)
            case Some(json) => Ok(LegacyRequest(m, Some(p), Some(v), Assigned(hs), json))
  {
    ParseRendered(m, p, v, hs, body);
  }
}
