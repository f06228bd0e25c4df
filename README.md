# A verified model of a minimal HTTP server's request codec

The repository is a small HTTP/1.1 server written on raw TCP sockets. It
comes in two generations. Each has a `parseClientRequest` function that
turns the bytes a client sends into a request object:

- `index.js` is the first generation. It keeps the raw body text.
- `src/index.js` is the second. It also parses query parameters, gives a
  body of `{}` unless a JSON body is declared, and answers every request
  through `createResponse`. It routes `GET /` to a JSON greeting and
  everything else to a 404 page.

The parsers are built from `String.prototype.split`, destructuring, `join`
and `trim`. The project models those JavaScript operations exactly and
proves the parsers against specification functions. Modules:

- `Wrappers`: `Option` and `Result`.
- `JsString`: first-match `indexOf`, `split`, `join`, destructuring with
  `undefined` (`At`) and `trim` over ECMAScript white space. It proves that
  `join` undoes `split`, that `split` undoes `join` when no piece contains
  the separator's first character, and that `trim`
  removes surrounding white space and nothing else.
- `Dict`: assigning entries to a plain object one after another, where
  the last write wins.
- `JsValue`: the JavaScript values involved, truthiness, `String(x)`,
  integer-to-decimal conversion with its inverse, and `JSON.stringify`.
- `RequestParsing`: the steps both generations share. These are the frame
  split at the first blank line, the request line, and the header loop.
  It also has a renderer for well-formed requests and proofs that parsing
  a rendered request gives back its parts.
- `RequestDecoder`: `parseClientRequest` of `src/index.js`, with the query
  loop.
- `LegacyDecoder`: `parseClientRequest` of `index.js`.
- `ResponseEncoder`: `createResponse`, plus a reader for its output and
  the round trip between the two.
- `Dispatcher`: the route decision and the socket `data` handler, minus
  the socket.

`JSON.parse` belongs to the JavaScript engine. Both decoders therefore take
it as a parameter `jsonParse: string -> Option<Value>`, where `None` stands
for the `SyntaxError` it throws. Exceptions become the `Err` side of a
`Result`:

- `PathUndefined` is the `TypeError` thrown by `path.split("?")` when the
  request line has no space.
- `InvalidJson` is the `SyntaxError` from `JSON.parse`.

## Model

| member | source | states |
|---|---|---|
| JsString.IndexOf | src/index.js:22 | the separator matches at the result, at no earlier position, and nowhere at or after `from` when the result is absent |
| JsString.Split | src/index.js:22-24 | `String.prototype.split` on a nonempty separator cuts at every match and always gives at least one piece; `SplitFirst` characterises it; `JoinSplit` proves `Join` undoes it, and `SplitJoin` proves it undoes `Join` for pieces without the separator's first character |
| JsString.Join | src/index.js:29 | `Array.prototype.join`: the pieces with the separator between them; `JoinSplit` proves it undoes `Split`, and `SplitJoin` proves `Split` undoes it for pieces without the separator's first character |
| JsString.SplitFirst | src/index.js:22-24 | the first piece of `split` is the text before the first match; the rest is the split of the text after that match; one piece means no match |
| JsString.SplitSingle | src/index.js:22 | `split` returns one piece exactly when the separator does not occur |
| JsString.SplitPiecesFree | src/index.js:23 | no piece of a split contains the separator |
| JsString.JoinSplit | src/index.js:28-29 | joining the pieces of a split with the same separator gives back the original text, so `headerContent.join(":")` is the line after the first colon |
| JsString.SplitJoin | src/index.js:22-24 | splitting a join gives back the pieces when no piece contains the separator's first character |
| JsString.JoinFree | src/index.js:29 | a character in neither the pieces nor the separator is not in the join |
| JsString.FirstPieceAtChar | src/index.js:24 | the first piece of a split at a character is the text before its first occurrence; there are more pieces exactly when it occurs, and they are the split of the rest |
| JsString.SecondPieceAtChar | src/index.js:34 | the second piece is free of the character, the text starts with the first piece, the character and the second piece, and the second piece ends at the second occurrence of the character, or at the end of the text exactly when there are only two pieces |
| JsString.PieceFreeOfChar | src/index.js:24 | no piece of a split at a character contains it |
| JsString.SplitWithout | src/index.js:22 | a text without the separator splits into itself alone |
| JsString.ContainsChar | src/index.js:24 | a one-character separator occurs exactly when the character is in the text |
| JsString.At | src/index.js:22-24 | destructuring gives `undefined` exactly past the end, and otherwise the element |
| JsString.SkipWhiteSpace | src/index.js:29 | the index stays within the text; everything from the start index up to it is white space, and it is the end of the text or a character that is not white space |
| JsString.SkipWhiteSpaceBack | src/index.js:29 | the index lies between the lower bound and the end index; everything from it up to the end index is white space, and it is the lower bound or follows a character that is not white space |
| JsString.Trim | src/index.js:29 | `String.prototype.trim`; `TrimIsTrimmed` and `TrimRemovesWhiteSpace` together fix its result uniquely, and `TrimPadded` is its inverse on padded values |
| JsString.TrimIsTrimmed | src/index.js:29 | the result of `trim` neither starts nor ends with white space |
| JsString.TrimRemovesWhiteSpace | src/index.js:29 | everything `trim` removes, before and after the result, is white space |
| JsString.TrimPadded | src/index.js:29 | trimming white-space padding off a trimmed value gives back the value |
| Dict.Assigned | src/index.js:26-30 | the object left by the assignments `obj[key] = value` in order, starting from `{}`; `AssignedKeys`, `AssignedLastWins` and `AssignedStep` characterise it |
| Dict.AssignedKeys | src/index.js:26-30 | a key is in the object exactly when some entry assigned it |
| Dict.AssignedLastWins | src/index.js:29 | a key holds the value of its last assignment |
| Dict.AssignedStep | src/index.js:27-29 | one more assignment updates only that key |
| JsValue.Truthy | src/index.js:83 | `if (responseBody)`: false exactly for `undefined`, `null`, `false`, `0` and the empty string; `CreateResponse` states its cases with it |
| JsValue.ToDisplayString | src/index.js:87 | `String(v)`, which `response += responseBody` applies: a string unchanged, a number in decimal, an object as `[object Object]`; `CreateResponse` writes it for an HTML body |
| JsValue.Decimal | src/index.js:79 | `${statusCode}` for an integer; `ParseDecimalOfDecimal` proves it reads back and `StatusDigits` gives `200` and `404` |
| JsValue.Quote | src/index.js:85 | `JSON.stringify` of a string: quotes around the escaped text; `QuoteBodyPlain` proves plain text is written unchanged |
| JsValue.Stringify | src/index.js:85 | `JSON.stringify(v)` for integer numbers, strings, arrays and objects, skipping `undefined` members; `GreetingJson` proves the greeting is written as `{"hello":"world"}` |
| JsValue.NatDigits | src/index.js:79 | the decimal form of a natural number is nonempty, all digits, with no leading zero |
| JsValue.DigitsValueOfNatDigits | src/index.js:79 | reading the digits back gives the number |
| JsValue.ParseDecimal | src/index.js:79 | the reader of `${statusCode}`; `ParseDecimalOfDecimal` proves it reads every integer's decimal form back to that integer |
| JsValue.ParseDecimalOfDecimal | src/index.js:79 | the decimal form of any integer reads back as that integer and contains no carriage return or space |
| JsValue.QuoteBodyPlain | src/index.js:85 | `JSON.stringify` writes a string without quotes, backslashes or control characters unescaped |
| JsValue.Present | src/index.js:85 | every present value is in the result, each of its elements was present, and it is no longer than the input; `PresentAppend` fixes order and multiplicity |
| JsValue.PresentAppend | src/index.js:85 | the present values of two sequences put together are those of the first followed by those of the second, so members keep their order and count |
| RequestParsing.SplitFrameFirstBlankLine | src/index.js:22 | the header is the text before the first blank line; the body is absent exactly when there is no blank line, and otherwise runs to the next blank line |
| RequestParsing.SplitHeaderLines | src/index.js:23 | the request line and the header lines join back into the header, and none contains a line break |
| RequestParsing.RequestLineTokens | src/index.js:24 | the method is the text before the first space; the path is absent exactly when there is no space, and otherwise runs from the first space to the second one or to the end of the line; the version is present exactly when text follows the path; the path and version contain no space |
| RequestParsing.HeaderEntryFirstColon | src/index.js:28-29 | the key is the text before the first colon; the value is the trimmed text after it, or empty with no colon |
| RequestParsing.ColonPieces | src/index.js:28-29 | the first piece of a header line is the colon-free text before the first colon, and the remaining pieces join back into the text after it |
| RequestParsing.HeaderEntries | src/index.js:27-29 | one entry per header line, in order |
| RequestParsing.ParseHeaderLines | src/index.js:26-30 | the header loop builds the object that assigning every line's entry in order gives |
| RequestParsing.HeaderMapLastWins | src/index.js:26-30 | the headers hold exactly the keys of the lines, and a key repeated on several lines keeps its last line's value |
| RequestParsing.RenderHeaderLines | src/index.js:28 | the client's writer for the header lines that line 28 parses, not a model of that line: each header is written as `name: value`, in order |
| RequestParsing.NoBlankLineInLines | src/index.js:22 | one or more nonempty lines without carriage returns, joined by line breaks and followed by any text, have no blank line starting inside the joined lines |
| RequestParsing.JoinStartsWithFirst | src/index.js:23 | a join starts with its first piece |
| RequestParsing.FrameOfRendered | src/index.js:22 | a head of one or more nonempty lines without carriage returns, joined by line breaks, then a blank line and a body without a blank line, is split back into that head and body |
| RequestParsing.FirstBlankLineAfterHead | src/index.js:22 | the first blank line of a client's request is the one ending its header block |
| RequestParsing.SplitHeaderOfRendered | src/index.js:23 | the lines of a rendered head come back in order |
| RequestParsing.ParseRequestLineOfTokens | src/index.js:24 | one or more space-free tokens joined by spaces give back the first as the method and the second and third as path and version, `undefined` when missing; extra tokens are dropped |
| RequestParsing.RequestLineOfRendered | src/index.js:24 | `method path version` gives back all three |
| RequestParsing.HeaderEntryOfRendered | src/index.js:28-29 | `name: value` with a colon-free name and a trimmed value gives back both |
| RequestParsing.RenderedLinesPlain | src/index.js:23 | every rendered line is nonempty and has no carriage return |
| RequestParsing.HeaderEntriesOfRendered | src/index.js:27-29 | the entries of rendered headers are the headers themselves |
| RequestParsing.ParseRendered | src/index.js:22-29 | parsing a rendered request recovers its frame, lines, request line and header entries |
| RequestParsing.SplitFrame | src/index.js:22 | `const [header, body] = request.split("\r\n\r\n")`; `SplitFrameFirstBlankLine` characterises it |
| RequestParsing.SplitHeader | src/index.js:23 | `const [requestLine, ...headerLines] = header.split("\r\n")`; `SplitHeaderLines` characterises it |
| RequestParsing.ParseRequestLine | src/index.js:24 | `const [method, path, version] = requestLine.split(" ")`; `RequestLineTokens` characterises it |
| RequestParsing.HeaderEntry | src/index.js:28-29 | one header line's key and trimmed value; `HeaderEntryFirstColon` characterises it |
| RequestParsing.WantsJson | src/index.js:44-45 | the method is exactly `POST` or `PUT` and the header `Content-Type` is exactly `application/json`; `DecodedErrors` and `LegacyDecodedFailsOnlyOnJson` use it |
| RequestParsing.BodyText | src/index.js:46 | the text `JSON.parse(body)` reads: the body segment, or `"undefined"` when there is none |
| RequestDecoder.QueryEntries | src/index.js:36-39 | one entry per `&`-separated pair of the query string, in order |
| RequestDecoder.ParseQuery | src/index.js:33-41 | the query loop builds the object that assigning every pair in order gives; the object is empty with no query string or an empty one |
| RequestDecoder.QueryStringAfterFirstMark | src/index.js:34 | the query string is absent exactly when the path has no `?`, and otherwise is the text after the first `?` up to the second `?` or the end of the path |
| RequestDecoder.QueryEntryFirstEquals | src/index.js:38 | the key is the text before the first `=`; the value is absent exactly when there is no `=`, and otherwise is the text after the first `=` up to the second `=` or the end of the piece |
| RequestDecoder.QueryEntryOfRendered | src/index.js:38 | `key=value` gives back both when neither contains `=`, `&` or `?` |
| RequestDecoder.QueryOfRendered | src/index.js:34-39 | a path with a rendered query string gives back its pairs in order |
| RequestDecoder.ExampleQuery | src/index.js:33-41 | `/?a=1&b=2` decodes to `{a: "1", b: "2"}` |
| RequestDecoder.QueryString | src/index.js:34 | `path.split("?")[1]`; `QueryStringAfterFirstMark` characterises it |
| RequestDecoder.QueryEntry | src/index.js:38 | `const [key, value] = pair.split("=")`; `QueryEntryFirstEquals` characterises it |
| RequestDecoder.QueryPairs | src/index.js:35-36 | the `&`-pieces of a truthy query string, and none for a missing or empty one; `ParseQuery` proves the loop visits them |
| RequestDecoder.ParsedBody | src/index.js:43-48 | the decoded JSON when `WantsJson` holds, `{}` otherwise; `DecodedErrors` and `DecodeRenderedJson` state its cases |
| RequestDecoder.Decoded | src/index.js:19-58 | the specification `ParseClientRequest` is proved equal to; `DecodedErrors` characterises its errors |
| RequestDecoder.ParseClientRequest | src/index.js:19-58 | the decoder returns what the decoding specification gives: request line, headers, query and body, or the error |
| RequestDecoder.DecodedErrors | src/index.js:34-48 | the `TypeError` happens exactly when the request line has no space; the `SyntaxError` exactly when the path is there, a `POST` or `PUT` declares `Content-Type: application/json`, and its body does not parse; a successful decode of a request that declares no JSON body has the body `{}`, and one that declares a JSON body has the parser's value |
| RequestDecoder.DecodeRendered | src/index.js:43-57 | a rendered request that declares no JSON body, whatever its method, decodes to its method, path, version and headers, with body `{}` and the path's query |
| RequestDecoder.DecodeRenderedJson | src/index.js:44-47 | a rendered `POST` or `PUT` declaring JSON gets the parsed body, or fails exactly when it does not parse |
| LegacyDecoder.ParseClientRequest | index.js:19-43 | the first-generation decoder returns what its specification gives; the body is the raw text unless a JSON body is declared |
| LegacyDecoder.LegacyDecodedFailsOnlyOnJson | index.js:33-38 | it fails exactly when a `POST` or `PUT` declares a JSON body that does not parse, and then with the `SyntaxError`; when no JSON body is declared it succeeds and keeps the raw body; when a declared JSON body parses, the body is the parser's value; the path is undefined exactly when the request line has no space |
| LegacyDecoder.LegacyDecodeRenderedJson | index.js:33-38 | a rendered `POST` or `PUT` that declares `Content-Type: application/json` decodes to its method, path, version and headers with the parsed body, or fails with the `SyntaxError` exactly when the body does not parse |
| LegacyDecoder.LegacyDecodeRendered | index.js:19-43 | a rendered request that declares no JSON body, whatever its method, decodes to its parts, with the body text unchanged |
| LegacyDecoder.RawBody | index.js:33 | `let parsedBody = body`: the body segment as a string, `undefined` without a blank line |
| LegacyDecoder.LegacyDecoded | index.js:19-43 | the specification `LegacyDecoder.ParseClientRequest` is proved equal to; `LegacyDecodedFailsOnlyOnJson` characterises it |
| ResponseEncoder.CreateResponse | src/index.js:77-93 | it throws exactly for a truthy body whose type is neither JSON nor HTML, and the model records the type in the error; otherwise it writes the header block followed by nothing, `JSON.stringify(body)` or `String(body)` |
| ResponseEncoder.HeaderBlock | src/index.js:78-82 | the status line, the `Content-Type` line and the blank line; `ReadHeaderBlock` proves it reads back |
| ResponseEncoder.StripPrefix | src/index.js:79 | a step of the client's reader for the status line that line 79 writes, not a model of that line: a prefix is stripped exactly when the text starts with it |
| ResponseEncoder.SplitAtFirst | src/index.js:80-82 | the client's reader's cut at the line breaks that lines 80-82 write, not a model of those lines: the two parts put back around the separator give the text |
| ResponseEncoder.SplitAtFirstAfter | src/index.js:80-82 | for the client's reader of what lines 80-82 write, not a model of them: a separator starting with a carriage return is found right after a text without one |
| ResponseEncoder.StripPrefixOf | src/index.js:81 | for the client's reader of the `Content-Type` line that line 81 writes, not a model of it: stripping the prefix of a text that starts with it leaves the rest |
| ResponseEncoder.ReadTypeLineOf | src/index.js:81-82 | for a content type without a carriage return, the `Content-Type` line and the payload read back |
| ResponseEncoder.ReadHeaderBlock | src/index.js:77-93 | for a content type without a carriage return, reading a response back recovers the status code, the content type and the payload |
| Dispatcher.Dispatch | src/index.js:100-108 | 200 exactly for `GET /`, with the JSON greeting; otherwise 404 with an HTML page naming the path and method |
| Dispatcher.HelloResponse | src/index.js:101 | the full answer to `GET /`; `HelloResponseBytes` gives it byte for byte |
| Dispatcher.NotFoundResponse | src/index.js:103-107 | the full 404 answer; `NotFoundResponseBytes` gives it byte for byte |
| Dispatcher.RoutesEncodable | src/index.js:100-108 | every route has a truthy body of a type the encoder writes, so it never throws |
| Dispatcher.StatusDigits | src/index.js:101-104 | the status codes are written as `200` and `404` |
| Dispatcher.GreetingJson | src/index.js:101 | the greeting is written as `{"hello":"world"}` |
| Dispatcher.GreetingMember | src/index.js:101 | the greeting's one member is written as `"hello":"world"` |
| Dispatcher.QuotedWord | src/index.js:101 | a lower-case word is written between quotes unchanged |
| Dispatcher.OkHeaderBlock | src/index.js:79-82 | the greeting's status and content-type lines, byte for byte |
| Dispatcher.NotFoundHeaderBlock | src/index.js:79-82 | the not-found page's status and content-type lines, byte for byte |
| Dispatcher.HelloResponseBytes | src/index.js:101 | the answer to `GET /`, byte for byte, line by line |
| Dispatcher.NotFoundResponseBytes | src/index.js:103-107 | the 404 answer, byte for byte, naming path and method |
| Dispatcher.ResponsesReadBack | src/index.js:100-108 | a client reads back the status, content type and payload of both answers |
| Dispatcher.HandleData | src/index.js:96-109 | the handler writes what the serving specification gives: the decoder's error, the greeting for `GET /`, or the 404 page |
| Dispatcher.Served | src/index.js:96-109 | the specification `HandleData` is proved equal to; `ServedRoot`, `ServedRootWithQuery` and `ServedNotFound` state its cases |
| Dispatcher.ServedRoot | src/index.js:100-101 | a rendered `GET /` is answered with the greeting |
| Dispatcher.ServedRootWithQuery | src/index.js:100-107 | `GET /?x=1` is not found, because the route compares the whole path |
| Dispatcher.ServedNotFound | src/index.js:102-107 | any rendered request other than `GET /` that declares no JSON body, a `POST` or `PUT` with another content type included, gets the 404 page for its path and method |

In three places the code does something a reader of an HTTP server might
not expect; the model follows the code:

- Routing compares the raw path with its query string, so `/?x=1` is not
  the root.
- In `src/index.js` a body that is not JSON becomes `{}`, not the raw text.
- A request without a blank line passes `undefined` to `JSON.parse`, which
  converts it to the text `"undefined"`. The model passes that text to the
  parser parameter.

## Left out

- Sockets, `net.createServer`, `socket.write`, `socket.end` and the
  `end`/`error` handlers are I/O. The model takes the received text as
  input and returns the text that would be written.
- Each `data` event is treated as one complete request. Requests split
  across several events, or several requests in one event, are not
  modelled.
- `console.time`, `console.timeEnd` and `console.log` have no effect on
  results.
- `Buffer.toString` (UTF-8 decoding) is not modelled. The model starts
  from the decoded string.
- `JSON.parse` is a parameter. Its grammar belongs to the JavaScript
  engine.
- JsValue.Value: numbers are integers. So `JsValue.Stringify` and
  `JsValue.ToDisplayString` do not model floating-point formatting,
  exponent notation from 1e21 up, `NaN` or `Infinity`. The `jsonParse`
  parameter cannot return a fractional number such as the one in
  `{"x":1.5}`. The route's own values are all integers and strings.
- Objects are not modelled as prototype-bearing JavaScript objects. A
  header or query key named `__proto__` would be special in JavaScript but
  is an ordinary key here. Insertion order of keys is not part of the map.
- `JSON.stringify` is not modelled on `toJSON` methods, cycles, functions,
  symbols or `BigInt`. None of these reach it from the code.
- An uncaught exception in the `data` handler is returned as an `Err`.
  What Node.js then does to the process is not modelled.
- JsString.Split requires a nonempty separator. The code only splits on
  nonempty literals.
- The `Error` constructor's ignored second argument is not modelled. The
  model records the content type in the error itself.
- JsValue.Value: an object is a sequence of fields in insertion order and
  may repeat a key. JavaScript lists integer-like keys first, in ascending
  order, and `JSON.stringify` writes them in that order. The model does
  not reorder them. The only object the code stringifies is the greeting,
  whose one key is not integer-like.
