# Request pipeline of a small WSGI-style HTTP server, modelled in Dafny

This project models the request path of a small Python web server: raw
request text → parsed request → environ → API route → handler dispatch →
response text on the connection. It also models the URL builder of the
weather handler.

| module | file | models |
|---|---|---|
| `Wrappers` | wrappers.dfy | `Option` and `Result`, which stand in for Python's exceptions |
| `Text` | text.dfy | Python's `str.split(sep)`, `str.split(sep, maxsplit=1)` and `sep.join` on `seq<char>` |
| `Decimal` | decimal.dfy | `str(int)` and its inverse |
| `Dicts` | dicts.dfy | `dict(pairs)` and dict comprehensions: every item must unpack into a key and a value, and a later pair for a key overwrites an earlier one |
| `Utils` | utils.dfy | utils.py: `parse_http`, `to_environ`, `format_headers`, `parse_api_route`, `process_response` and `start_response`, with the connection as a class `Connection` whose `sent` text is only appended to |
| `App` | app.dfy | the `maps` table, `router`, `view` and `application`, plus one pass of the WSGI serving loop after the request text has arrived |
| `Weather` | weather.dfy | `url_builder` of src/weather.py |

Python raises an exception on every malformed input. The model returns
`Err` with a reason instead:

- `ParseError` for `parse_http`;
- `RouteError` for `parse_api_route`;
- `DispatchError` for the table lookup;
- `ServeError` for one served request.

Splitting is Python's: leftmost, non-overlapping, and keeping empty pieces.
`Text.Partition` cuts at the leftmost occurrence, and `Text.Split` repeats it.
The lemmas `PartitionSpec`, `SplitShape`, `JoinSplit`, `SplitPiecesFree` and
`SplitJoin` pin them down.

Handlers are opaque. The table maps a module name to a pair: the module
object, and a map from action names to the value the zero-argument handler
returns. A parameter `show: R -> string` stands for Python's `str` on those
values. `constants.API_URL_PREFIX` is not part of this model, so the prefix
is a parameter.

The model follows the code, including these behaviours a reader might not expect:

- Header names and values are not trimmed. A value keeps its leading space
  (`Utils.HeaderPairsSpec`).
- The body is the last CRLF-separated piece. The headers are all the pieces
  strictly between the request line and the second-to-last piece. The
  second-to-last piece is dropped without checking that it is blank
  (`Utils.ParseHttpDecomposes`, `Utils.ParseHttpRender`).
- Method, path and protocol may be empty. The request line only has to split
  on `" "` into exactly three fields.
- The file and action of a route may be empty.
- `Content-Length` is `len(response)`, a count of characters, not of bytes.
- The raw route is the text between the first and the second occurrence of
  the prefix, not everything after the first one.
- An argument value is the text between a token's first and second `=`.
- `application` sends the status `200 ok` in lower case, with only a
  `Content-Length` header and no trailing CRLF. `process_response` sends
  `200 OK`, two headers and a trailing CRLF.

## Model

| member | source | states |
|---|---|---|
| `Text.Partition` | utils.py:19 | `s.split(sep, maxsplit=1)`: a cut keeps every character but the separator's; `Text.PartitionSpec` says where it cuts |
| `Text.BeforeAfter` | utils.py:73-77 | `s.split(sep)[0]` and `[1]` up to the next `sep`: Before never holds `sep`; with `sep` present `s == Before + sep + After` at the first occurrence, and without it Before is all of `s` |
| `Text.Split` | utils.py:16-19 | `s.split(sep)`: always at least one piece; `Text.SplitShape`, `Text.JoinSplit`, `Text.SplitPiecesFree` and `Text.SplitJoin` pin the pieces down |
| `Text.PartitionSpec` | utils.py:19 | `split(sep, maxsplit=1)` fails exactly when `sep` does not occur. Otherwise it cuts at the leftmost occurrence: `s == a + sep + b`, and `a` holds no `sep` |
| `Text.SplitShape` | utils.py:16 | the first piece of a split is the text before the first separator; there are two or more pieces exactly when the separator occurs, and the rest are the pieces of the text after it |
| `Text.JoinSplit` | utils.py:16 | joining the pieces of a split with the separator gives back the text |
| `Text.SplitPiecesFree` | utils.py:16 | no piece of a split holds the separator |
| `Text.SplitJoin` | utils.py:16-17 | splitting inverts joining when the separator cannot overlap itself and no piece holds it |
| `Text.SplitCharCount` | utils.py:17 | splitting on one character gives one more piece than the character has occurrences |
| `Dicts.CutAll` | utils.py:18-21 | every item unpacked into a key and a value, or the first item that does not; `Dicts.CutAllSpec` states it |
| `Utils.HeaderPairs` | utils.py:18-21 | the header lines cut at their first `:`; a failure is always HeaderWithoutColon; `Utils.HeaderPairsSpec` states the pairs |
| `Utils.HeaderLineSplit` | utils.py:19 | a header line splits exactly when it has a `:`, into the text before and after its first `:`; the name holds no `:` |
| `Dicts.CutAllSpec` | utils.py:18-21 | building a dict from items that must each unpack into key and value succeeds exactly when every item unpacks; there is one pair per item, in order, and otherwise the first item that does not unpack is reported |
| `Utils.HeaderPairsSpec` | utils.py:18-21 | header pairs succeed exactly when every line has a `:`; each pair is the text around the first `:`, untrimmed (`line == name + ":" + value`); otherwise the error is the first line without `:` |
| `Utils.HeaderLastWins` | utils.py:18-21 | a header name that appears again later keeps the value of its last line |
| `Utils.ParsePieces` | utils.py:16-22 | the unpacking of the CRLF pieces; `Utils.ParsePiecesFailures` and `Utils.ParsePiecesDecomposes` specify it |
| `Utils.ParseHttp` | utils.py:7-22 | parse_http; `Utils.ParseHttpFailures`, `Utils.ParseHttpRequestLine`, `Utils.ParseHttpDecomposes` and `Utils.ParseHttpRender` specify it |
| `Utils.ParsePiecesFailures` | utils.py:16-17 | parsing fails with MissingSections exactly when there are fewer than three pieces, and with BadRequestLine exactly when the request line does not split into three fields |
| `Utils.ParseHttpFailures` | utils.py:16-17 | parse_http fails with MissingSections exactly when CRLF does not occur twice, and with BadRequestLine exactly when the request line does not hold exactly two spaces |
| `Utils.ParseHttpRequestLine` | utils.py:17 | on success the request line is `method + " " + path + " " + protocol`, and no field holds a space |
| `Utils.RequestLineRoundTrip` | utils.py:17 | three space-free fields joined by spaces split back into those fields |
| `Utils.ParsePiecesDecomposes` | utils.py:16-21 | on success the pieces are the request line, the header lines, one dropped piece and the body, and the headers come from exactly those lines |
| `Utils.ParseHttpDecomposes` | utils.py:16-22 | on success the text is a rendered request whose header lines hold no CRLF and whose header map is built from those lines; the body holds no CRLF and is the text after the last CRLF |
| `Utils.ParseHttpRender` | utils.py:7-22 | rendering a request and parsing it gives back method, path, protocol, the header map of its lines and the body, whatever the dropped piece holds |
| `Utils.FormatHeaders` | utils.py:82-84 | format_headers returns the header map unchanged |
| `Utils.ToEnviron` | utils.py:51-58 | REQUEST_METHOD, PATH_INFO, SERVER_PROTOCOL, the input stream and headers are the parsed method, path, protocol, body and header map |
| `Utils.ToEnvironLossless` | utils.py:51-58 | the parsed request can be read back from the environ |
| `Utils.ArgPairs` | utils.py:78 | the `&`-tokens cut into key and value; a failure is always ArgWithoutValue; `Utils.ArgPairsSpec` states the pairs |
| `Utils.ArgPairsSpec` | utils.py:77-78 | argument pairs succeed exactly when every `&`-token has an `=`; each key is the text before the first `=`, each value the text between the first and second `=`; otherwise the error is the first token without `=` |
| `Utils.ArgTokenSplit` | utils.py:78 | a token has a value exactly when it has an `=`; its key is the text before the first `=`, its value the text between the first and second `=` |
| `Utils.ArgLastWins` | utils.py:78 | an argument name that appears again later keeps the value of its last token |
| `Utils.ParseRaw` | utils.py:74-78 | the raw route's file, action and args; `Utils.ParseRawFailures` and `Utils.ParseRawFields` specify it |
| `Utils.ParseApiRoute` | utils.py:68-79 | parse_api_route; `Utils.ParseApiRouteFailures`, `Utils.ParseApiRouteFields` and `Utils.ParseApiRouteRaw` specify it |
| `Utils.ParseApiRouteRaw` | utils.py:73 | when the prefix occurs, the route is resolved from the text between its first and second occurrences alone |
| `Utils.ParseRawFailures` | utils.py:74-78 | the raw route fails with MissingAction exactly when it has no `/`, with MissingQuery exactly when its second segment has no `?`, and succeeds exactly when every `&`-token of the query has an `=` |
| `Utils.ParseApiRouteFailures` | utils.py:73-78 | the route fails with EmptyPrefix for an empty prefix, with PrefixNotFound exactly when the prefix does not occur, and then with MissingAction, MissingQuery or a token error exactly as for the raw route |
| `Utils.ParseRawFields` | utils.py:74-78 | a resolved raw route's file is its first `/`-segment, its action the second segment up to its first `?`, and its args the dict of the query's `&`-tokens |
| `Utils.ParseApiRouteFields` | utils.py:68-79 | a resolved route has the prefix in the path, and its file, action and args are those of its raw route |
| `Utils.RouteDependsOnlyOnRaw` | utils.py:73 | two paths with the same text between the first two prefixes resolve alike |
| `Utils.RouteIgnoresLaterSegments` | utils.py:74-76 | two raw routes that agree on their first two `/`-segments resolve alike; later segments are ignored |
| `Utils.ProcessResponse` | utils.py:41-48 | the response is the 200 status line, a Content-Length whose digits read back as the body's character count, Content-Type text/html, a blank line, the body and a CRLF |
| `Utils.ProcessResponseIsStaged` | utils.py:41-48 | process_response's text is the staged status block with its two headers, then the body and a CRLF |
| `Utils.HeaderLines` | utils.py:63-64 | one `key: value` line per header, in list order; `Utils.StatusBlockLines` reads them back |
| `Utils.StatusBlock` | utils.py:61-65 | the whole text start_response writes; `Utils.StartResponse` writes it and `Utils.StatusBlockLines` splits it back into its lines |
| `Utils.Connection.SendAll` | utils.py:62-65 | sending appends the data to what the connection already carries |
| `Utils.StartResponse` | utils.py:61-65 | start_response appends, and only appends, the status line, one `key: value` line per header in list order, and a blank line |
| `Utils.StatusBlockLines` | utils.py:61-65 | the block start_response writes splits back on CRLF into the status line, one line per header in order, and two empty pieces |
| `App.Maps` | app.py:6-11 | the table has exactly the module `weather`, with exactly the action `send_collected_data_to_display` |
| `App.MapsRoutes` | app.py:6-11 | on that table a route dispatches exactly when it is `weather` / `send_collected_data_to_display`, and then to that handler; any other file is UnknownModule |
| `App.Router` | app.py:103-104 | dispatch succeeds exactly when the file is a table key and the action a key of that module's actions; its result is that handler's; the error says which lookup failed |
| `App.RouterIgnoresArgs` | app.py:104 | the parsed arguments never reach the handler |
| `App.View` | app.py:97-101 | view; `App.ViewSpec` and `App.ViewReadsOnlyPath` specify it |
| `App.ViewSpec` | app.py:97-101 | view succeeds exactly when the route of PATH_INFO resolves and dispatches, and then it is the string form of the handler's result; a route error passes through |
| `App.ViewReadsOnlyPath` | app.py:97-99 | view reads only PATH_INFO from the environ |
| `App.AppHeaders` | app.py:93 | the one header is Content-Length, whose value reads back as the response's character count |
| `App.Application` | app.py:82-95 | on success application writes the status block for `200 ok` and the Content-Length header, then returns the one-element list holding the view's response; on failure it writes nothing |
| `App.SendEach` | app.py:69-70 | the list elements are sent in order, appended to the connection |
| `App.ServeParsed` | app.py:66-70 | for a parsed request the connection gains the status block and then the response, and the list is `[response]`; a failing view sends nothing |
| `App.Respond` | app.py:64-67 | the response one request's text yields, or why none; `App.ServeRequest` sends it and `App.RespondOnMaps` evaluates it on app.py's table |
| `App.ServeRequest` | app.py:64-70 | one request's text leaves the connection with exactly the status block and the response appended; a parse or application failure appends nothing |
| `App.WireFraming` | app.py:93-95 | what is sent is the status block followed by the response; the block splits into status line, Content-Length line and two empty pieces; the length reads back as the response's character count |
| `App.RespondOnMaps` | app.py:97-104 | on app.py's table, a request whose route is `weather` / `send_collected_data_to_display` is answered with the string form of that handler's result |
| `Weather.UrlBuilder` | src/weather.py:10-21 | the URL starts with the fixed base, then `str(city_id)`, then `&mode=json&units=` and the unit, and ends with `&APPID=` and the key; its length is the sum of the parts |
| `Weather.UrlCityIdRoundTrip` | src/weather.py:18-20 | the city id reads back from the text after the base, up to the first `&` |
| `Weather.UrlBuilderInjective` | src/weather.py:19-20 | different city ids give different URLs, for the same key and unit |
| `Decimal.NatToString` | utils.py:43 | `str(n)` of a natural: nonempty digits with no leading zero except for `0` itself; `Decimal.NatToStringRoundTrip` reads it back |
| `Decimal.IntToString` | src/weather.py:20 | `str(i)`: never empty, a leading `-` exactly for negatives, and no `&`; `Decimal.IntToStringRoundTrip` reads it back |
| `Decimal.NatToStringRoundTrip` | utils.py:43 | the decimal text of a length reads back as that length |
| `Decimal.IntToStringRoundTrip` | src/weather.py:20 | `str(city_id)` reads back as `city_id`, negative ids included |
| `Dicts.FromPairs` | utils.py:18-21 | the dict's keys are exactly the pairs' keys |
| `Dicts.FromPairsLastWins` | utils.py:78 | a key keeps the value of its last pair |

## Left out

- Weather.UrlBuilder: `city_id` is modelled as the annotated `int`. `load_config` (src/weather.py:146-150) passes the text read from the config file, and there `str(city_id)` is that text itself; the round trip and injectivity lemmas do not cover that path.
- The socket loops `create_webserver` and `create_wsgi_compatible_web_server` are left out: bind, listen, accept, `recv(1024)`, close and detach are I/O. `App.ServeRequest` models one pass, starting from the received text.
- The UTF-8 encode and decode around the socket are left out; text is `seq<char>`.
- Exceptions are `Err` values. Their messages, and the exception logging in the serving loop, are not modelled.
- The `hello world` view inside `create_webserver` belongs to that loop and is left out.
- Logging is left out: `setup_logger`, and the `logger.info` / `print` in `parse_api_route`.
- `StringIO` in `to_environ` is left out; the input stream is the body text it would read back.
- Python dicts keep insertion order; Dafny maps do not. The order of headers and arguments in the resulting dicts is not modelled. Which value a repeated key keeps is modelled.
- Handler bodies are opaque values.
- `send_collected_data_to_display` and the rest of src/weather.py are left out: network fetch, JSON, time formatting, console and config I/O.
- `constants.API_URL_PREFIX` is not part of this model. The prefix is a parameter of `Utils.ParseApiRoute` and `App.View`.
- App.Application: the `start_resp` callable is not a parameter. The method calls `Utils.StartResponse` directly, which is the only callable app.py passes.
