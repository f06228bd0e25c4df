/** `createResponse` of src/index.js:77-93: writes a status line with no
    reason phrase, a single `Content-Type` header and a blank line, then
    the body as JSON text or as text, or throws for any other content type
    when there is a body. */
module ResponseEncoder {
  import opened Wrappers
  import opened JsString
  import opened JsValue

  const HtmlType: string := "text/html"
  const StatusPrefix: string := "HTTP/1.1 "
  const TypePrefix: string := "Content-Type: "

  /** The `Error` thrown for a body of a content type it cannot write. */
  datatype EncodeError = UnsupportedContentType(contentType: string)

  /** The status line, the `Content-Type` line and the blank line. */
  function HeaderBlock(statusCode: int, contentType: string): string
  {
    StatusPrefix + Decimal(statusCode) + "\r\n" + TypePrefix + contentType + "\r\n\r\n"
  }

  /** `createResponse(statusCode, contentType, responseBody)`. It throws
      exactly when the body is truthy and the content type is neither JSON
      nor HTML. Otherwise the text starts with the header block, and after
      it comes nothing for a falsy body, `JSON.stringify(body)` for JSON and
      `String(body)` for HTML. */
  method CreateResponse(statusCode: int, contentType: string, responseBody: Value)
    returns (r: Result<string, EncodeError>)
    ensures r.Err? <==> Truthy(responseBody) && contentType != JsonType && contentType != HtmlType
    ensures r.Err? ==> r.error == UnsupportedContentType(contentType)
    ensures r.Ok? ==>
      var head := HeaderBlock(statusCode, contentType);
      && |head| <= |r.value| && r.value[..|head|] == head
      && (!Truthy(responseBody) ==> r.value == head)
      && (Truthy(responseBody) && contentType == JsonType ==> r.value == head + Stringify(responseBody))
      && (Truthy(responseBody) && contentType == HtmlType ==> r.value == head + ToDisplayString(responseBody))
  {
    var response := "";
    response := response + StatusPrefix + Decimal(statusCode);
    assert response == StatusPrefix + Decimal(statusCode);
    response := response + "\r\n";
    response := response + TypePrefix + contentType;
    response := response + "\r\n\r\n";
    ghost var head := response;
    assert head == HeaderBlock(statusCode, contentType);
    if Truthy(responseBody) {
      if contentType == JsonType {
        var json := Stringify(responseBody);
        response := response + json;
        assert response[..|head|] == head;
      } else if contentType == HtmlType {
        var text := ToDisplayString(responseBody);
        response := response + text;
        assert response[..|head|] == head;
      } else {
        return Err(UnsupportedContentType(contentType));
      }
    }
    return Ok(response);
  }

  /** The parts a client reads back from a response. */
  datatype ResponseParts = ResponseParts(statusCode: int, contentType: string, payload: string)

  /** The text after `prefix`, when `text` starts with it. */
  function StripPrefix(text: string, prefix: string): (r: Option<string>)
    ensures r.Some? <==> |prefix| <= |text| && text[..|prefix|] == prefix
    ensures r.Some? ==> text == prefix + r.value
  {
    if |prefix| <= |text| && text[..|prefix|] == prefix then Some(text[|prefix|..]) else None
  }

  /** The text before and after the first occurrence of `sep`. */
  function SplitAtFirst(text: string, sep: string): (r: Option<(string, string)>)
    ensures r.Some? ==> text == r.value.0 + sep + r.value.1
  {
    match IndexOf(text, sep, 0)
    case None => None
    case Some(i) =>
      assert text == text[..i] + sep + text[i + |sep|..];
      Some((text[..i], text[i + |sep|..]))
  }

  /** Reads a response as the encoder writes it: the status code after
      `HTTP/1.1 ` up to the first line break, the content type after
      `Content-Type: ` up to the first blank line, and the rest as payload. */
  function ReadResponse(text: string): Option<ResponseParts>
  {
    match StripPrefix(text, StatusPrefix)
    case None => None
    case Some(afterPrefix) =>
      match SplitAtFirst(afterPrefix, "\r\n")
      case None => None
      case Some(split) =>
        match ParseDecimal(split.0)
        case None => None
        case Some(code) => ReadTypeLine(code, split.1)
  }

  /** The second half of `ReadResponse`: the content type line and the
      payload, given the status code already read. */
  function ReadTypeLine(code: int, typeLine: string): Option<ResponseParts>
  {
    match StripPrefix(typeLine, TypePrefix)
    case None => None
    case Some(rest) =>
      match SplitAtFirst(rest, "\r\n\r\n")
      case None => None
      case Some(split) => Some(ResponseParts(code, split.0, split.1))
  }

  /** Splitting `s + sep + t` at the first `sep`, where `sep` begins with a
      carriage return and `s` has none, gives back `s` and `t`. */
  lemma SplitAtFirstAfter(s: string, sep: string, t: string)
    requires |sep| > 0 && sep[0] == '\r' && '\r' !in s
    ensures SplitAtFirst(s + sep + t, sep) == Some((s, t))
  {
    var text := s + sep + t;
    forall k: nat | k < |s|
      ensures !MatchAt(text, sep, k)
    {
      assert text[k] == s[k];
      assert s[k] in s;
    }
    assert text[|s|..|s| + |sep|] == sep;
    IndexOfIs(text, sep, 0, |s|);
    assert text[..|s|] == s;
    assert text[|s| + |sep|..] == t;
  }

  /** Stripping a prefix from a text that starts with it. */
  lemma StripPrefixOf(prefix: string, t: string)
    ensures StripPrefix(prefix + t, prefix) == Some(t)
  {
    assert (prefix + t)[..|prefix|] == prefix;
    assert (prefix + t)[|prefix|..] == t;
  }

  /** Reading back what the encoder writes recovers the status code, the
      content type (when it has no carriage return) and the payload. */
  lemma ReadHeaderBlock(statusCode: int, contentType: string, payload: string)
    requires '\r' !in contentType
    ensures ReadResponse(HeaderBlock(statusCode, contentType) + payload)
         == Some(ResponseParts(statusCode, contentType, payload))
  {
    var code := Decimal(statusCode);
    ParseDecimalOfDecimal(statusCode);
    var rest := contentType + "\r\n\r\n" + payload;
    var typeLine := TypePrefix + rest;
    var afterPrefix := code + "\r\n" + typeLine;
    assert HeaderBlock(statusCode, contentType)
        == StatusPrefix + code + "\r\n" + TypePrefix + contentType + "\r\n\r\n";
    assert HeaderBlock(statusCode, contentType) + payload == StatusPrefix + afterPrefix;
    StripPrefixOf(StatusPrefix, afterPrefix);
    SplitAtFirstAfter(code, "\r\n", typeLine);
    ReadTypeLineOf(statusCode, contentType, payload);
  }

  lemma ReadTypeLineOf(code: int, contentType: string, payload: string)
    requires '\r' !in contentType
    ensures ReadTypeLine(code, TypePrefix + (contentType + "\r\n\r\n" + payload))
         == Some(ResponseParts(code, contentType, payload))
  {
    StripPrefixOf(TypePrefix, contentType + "\r\n\r\n" + payload);
    SplitAtFirstAfter(contentType, "\r\n\r\n", payload);
  }
}
