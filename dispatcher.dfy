/** The connection handler of src/index.js:95-111, minus the socket: it
    decodes the request, picks a route (src/index.js:100-108) and writes the
    response text. */
module Dispatcher {
  import opened Wrappers
  import opened JsString
  import opened JsValue
  import opened Dict
  import opened RequestParsing
  import opened RequestDecoder
  import opened ResponseEncoder

  /** The arguments the handler passes to `createResponse`. */
  datatype Route = Route(statusCode: int, contentType: string, body: Value)

  /** The object `{ hello: "world" }` served at the root. */
  const HelloWorld: Value := Obj([("hello", Str("world"))])

  /** The text of the not-found page. */
  function NotFoundMessage(path: string, httpMethod: string): string
  {
    "Not Found: " + path + " For Method: " + httpMethod
  }

  /** The route decision: `GET /` is served the JSON greeting with 200, any
      other method or path (a query string included) the not-found page
      with 404. */
  function Dispatch(path: string, httpMethod: string): (route: Route)
    ensures route.statusCode == 200 <==> path == "/" && httpMethod == "GET"
    ensures route.statusCode == 200 ==> route.contentType == JsonType && route.body == HelloWorld
    ensures route.statusCode != 200 ==>
      route.statusCode == 404 && route.contentType == HtmlType
      && route.body == Str(NotFoundMessage(path, httpMethod))
  {
    if path == "/" && httpMethod == "GET" then Route(200, JsonType, HelloWorld)
    else Route(404, HtmlType, Str(NotFoundMessage(path, httpMethod)))
  }

  /** Every route has a truthy body of a content type the encoder writes,
      so `createResponse` never throws for it. */
  lemma RoutesEncodable(path: string, httpMethod: string)
    ensures var route := Dispatch(path, httpMethod);
      && Truthy(route.body)
      && (route.contentType == JsonType || route.contentType == HtmlType)
  {
    var route := Dispatch(path, httpMethod);
    if route.statusCode != 200 {
      assert NotFoundMessage(path, httpMethod)[0] == 'N';
    }
  }

  /** The full text answered to `GET /`. */
  function HelloResponse(): string
  {
    HeaderBlock(200, JsonType) + Stringify(HelloWorld)
  }

  /** The full text answered to anything else. */
  function NotFoundResponse(path: string, httpMethod: string): string
  {
    HeaderBlock(404, HtmlType) + NotFoundMessage(path, httpMethod)
  }

  /** The response to `GET /`, byte for byte, line by line. */
  lemma HelloResponseBytes()
    ensures HelloResponse()
         == "HTTP/1.1 200\r\n" + "Content-Type: application/json\r\n" + "\r\n" + "{\"hello\":\"world\"}"
  {
    OkHeaderBlock();
    GreetingJson();
  }

  /** The not-found response, byte for byte, line by line. */
  lemma NotFoundResponseBytes(path: string, httpMethod: string)
    ensures NotFoundResponse(path, httpMethod)
         == "HTTP/1.1 404\r\n" + "Content-Type: text/html\r\n" + "\r\n"
            + "Not Found: " + path + " For Method: " + httpMethod
  {
    NotFoundHeaderBlock();
  }

  /** The header block of the greeting. */
  lemma OkHeaderBlock()
    ensures HeaderBlock(200, JsonType) == "HTTP/1.1 200\r\n" + "Content-Type: application/json\r\n" + "\r\n"
  {
    assert "HTTP/1.1 " + "200" + "\r\n" == "HTTP/1.1 200\r\n";
    assert "Content-Type: " + "application/json" + "\r\n\r\n" == "Content-Type: application/json\r\n" + "\r\n";
    StatusDigits();
  }

  /** The header block of the not-found page. */
  lemma NotFoundHeaderBlock()
    ensures HeaderBlock(404, HtmlType) == "HTTP/1.1 404\r\n" + "Content-Type: text/html\r\n" + "\r\n"
  {
    assert "HTTP/1.1 " + "404" + "\r\n" == "HTTP/1.1 404\r\n";
    assert "Content-Type: " + "text/html" + "\r\n\r\n" == "Content-Type: text/html\r\n" + "\r\n";
    StatusDigits();
  }

  /** The decimal forms of the two status codes. */
  lemma StatusDigits()
    ensures Decimal(200) == "200" && Decimal(404) == "404"
  {
    assert NatDigits(2) == "2" && NatDigits(4) == "4";
    assert NatDigits(20) == "20" && NatDigits(40) == "40";
  }

  /** The JSON text of the greeting. */
  lemma GreetingJson()
    ensures Stringify(HelloWorld) == "{\"hello\":\"world\"}"
  {
    var member := Quote("hello") + ":" + Stringify(Str("world"));
    GreetingMember();
    var fields := HelloWorld.fields;
    var members := seq(|fields|, i requires 0 <= i < |fields| =>
      if fields[i].1.Undefined? then None
      else Some(Quote(fields[i].0) + ":" + Stringify(fields[i].1)));
    assert members == [Some(member)];
    assert Present(members) == [member];
    assert Join([member], ",") == member;
    assert Stringify(HelloWorld) == "{" + Join(Present(members), ",") + "}";
    assert Stringify(HelloWorld) == "{" + "\"hello\":\"world\"" + "}";
    BracedGreeting();
  }

  /** A helper for `GreetingJson`: the member between braces, as one
      literal. */
  lemma BracedGreeting()
    ensures "{" + "\"hello\":\"world\"" + "}" == "{\"hello\":\"world\"}"
  {
  }

  /** The one member of the greeting, as JSON text. */
  lemma GreetingMember()
    ensures Quote("hello") + ":" + Stringify(Str("world")) == "\"hello\":\"world\""
  {
    QuotedWord("hello");
    QuotedWord("world");
  }

  /** A lower-case word is quoted without escapes. */
  lemma QuotedWord(w: string)
    requires forall i :: 0 <= i < |w| ==> 'a' <= w[i] <= 'z'
    ensures Quote(w) == "\"" + w + "\""
  {
    QuoteBodyPlain(w);
  }

  /** A client reading either response gets back the status code, the
      content type and the payload the route chose. */
  lemma ResponsesReadBack(path: string, httpMethod: string)
    ensures ReadResponse(HelloResponse())
         == Some(ResponseParts(200, JsonType, "{\"hello\":\"world\"}"))
    ensures ReadResponse(NotFoundResponse(path, httpMethod))
         == Some(ResponseParts(404, HtmlType, NotFoundMessage(path, httpMethod)))
  {
    StatusDigits();
    GreetingJson();
    ReadHeaderBlock(200, JsonType, Stringify(HelloWorld));
    ReadHeaderBlock(404, HtmlType, NotFoundMessage(path, httpMethod));
  }

  /** What the handler writes to the socket for `data`, or the exception
      that escapes it. */
  ghost function Served(data: string, jsonParse: JsonParser): Result<string, DecodeError>
  {
    match Decoded(data, jsonParse)
    case Err(e) => Err(e)
    case Ok(req) =>
      if req.path == "/" && req.httpMethod == "GET" then Ok(HelloResponse())
      else Ok(NotFoundResponse(req.path, req.httpMethod))
  }

  /** The `data` handler: decode, route, encode. */
  method HandleData(data: string, jsonParse: JsonParser) returns (r: Result<string, DecodeError>)
    ensures r == Served(data, jsonParse)
  {
    var parsed := ParseClientRequest(data, jsonParse);
    if parsed.Err? {
      return Err(parsed.error);
    }
    var req := parsed.value;
    var route := Dispatch(req.path, req.httpMethod);
    RoutesEncodable(req.path, req.httpMethod);
    var response := CreateResponse(route.statusCode, route.contentType, route.body);
    assert response.Ok?;
    return Ok(response.value);
  }

  /** A `GET /` as a client writes it is answered with the greeting. */
  lemma ServedRoot(v: string, hs: seq<(string, string)>, body: string, jsonParse: JsonParser)
    requires IsToken(v)
    requires forall h :: h in hs ==> IsPlainHeader(h)
    requires !Contains(body, BlankLine)
    ensures Served(RenderHead("GET", "/", v, hs) + BlankLine + body, jsonParse) == Ok(HelloResponse())
  {
    DecodeRendered("GET", "/", v, hs, body, jsonParse);
  }

  /** With a query string the root is not found, since routing compares
      the whole path. */
  lemma ServedRootWithQuery(v: string, hs: seq<(string, string)>, body: string, jsonParse: JsonParser)
    requires IsToken(v)
    requires forall h :: h in hs ==> IsPlainHeader(h)
    requires !Contains(body, BlankLine)
    ensures Served(RenderHead("GET", "/?x=1", v, hs) + BlankLine + body, jsonParse)
         == Ok(NotFoundResponse("/?x=1", "GET"))
  {
    DecodeRendered("GET", "/?x=1", v, hs, body, jsonParse);
  }

  /** Any request other than `GET /` that declares no JSON body is not
      found, a `POST` or `PUT` with another content type included; the page
      names the path and the method. */
  lemma ServedNotFound(m: string, p: string, v: string, hs: seq<(string, string)>,
                       body: string, jsonParse: JsonParser)
    requires IsToken(m) && IsToken(p) && IsToken(v)
    requires forall h :: h in hs ==> IsPlainHeader(h)
    requires !Contains(body, BlankLine)
    requires !WantsJson(m, Assigned(hs))
    requires p != "/" || m != "GET"
    ensures Served(RenderHead(m, p, v, hs) + BlankLine + body, jsonParse) == Ok(NotFoundResponse(p, m))
  {
    DecodeRendered(m, p, v, hs, body, jsonParse);
  }
}
