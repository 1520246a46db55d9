/**
 * The request-handling helpers of utils.py: the HTTP request splitter, the
 * environ builder, the API route resolver and the two response writers (the
 * single-string one and the staged one that writes to a connection).
 */
module Utils {
  import opened Wrappers
  import opened Text
  import opened Decimal
  import opened Dicts

  // ---------------------------------------------------------------------------
  // HTTP request splitter (parse_http)
  // ---------------------------------------------------------------------------

  /** What parse_http returns: method, path, protocol, headers, body. */
  datatype HttpRequest = HttpRequest(
    httpMethod: string,
    path: string,
    protocol: string,
    headers: map<string, string>,
    body: string)

  /** The ValueErrors parse_http can raise. */
  datatype ParseError =
    | MissingSections                // fewer than three CRLF-separated pieces to unpack
    | BadRequestLine(fields: nat)    // the request line does not split into three fields
    | HeaderWithoutColon(line: string)

  /** One header line split at its first `:` (`line.split(':', maxsplit=1)`), if it has one. */
  function HeaderCut(line: string): Option<(string, string)> {
    Partition(line, ":")
  }

  /** The pairs `dict(...)` is built from: every header line cut; the first line without `:` fails. */
  function HeaderPairs(lines: seq<string>): (r: Result<seq<(string, string)>, ParseError>)
    ensures r.Err? ==> r.error.HeaderWithoutColon?
  {
    match CutAll(lines, HeaderCut)
    case Err(line) => Err(HeaderWithoutColon(line))
    case Ok(pairs) => Ok(pairs)
  }

  /** One header line: it splits exactly when it has a `:`, into the text before and after the first one. */
  lemma HeaderLineSplit(line: string)
    ensures HeaderCut(line).Some? <==> ':' in line
    ensures HeaderCut(line).Some? ==>
      var kv := HeaderCut(line).value;
      && kv == (Before(line, ":"), After(line, ":"))
      && line == kv.0 + ":" + kv.1
      && ':' !in kv.0
  {
    PartitionSpec(line, ":");
    ContainsChar(line, ':');
    if Partition(line, ":").Some? {
      ContainsChar(Partition(line, ":").value.0, ':');
    }
  }

  /**
   * The header pairs keep name and value exactly as written around the first
   * `:` of each line (no trimming); the first line without `:` is the error.
   */
  lemma HeaderPairsSpec(lines: seq<string>)
    ensures HeaderPairs(lines).Ok? <==> forall k :: 0 <= k < |lines| ==> ':' in lines[k]
    ensures HeaderPairs(lines).Ok? ==> |HeaderPairs(lines).value| == |lines|
    ensures HeaderPairs(lines).Ok? ==> forall k :: 0 <= k < |lines| ==>
      var pair := HeaderPairs(lines).value[k];
      && pair == (Before(lines[k], ":"), After(lines[k], ":"))
      && lines[k] == pair.0 + ":" + pair.1
      && ':' !in pair.0
    ensures HeaderPairs(lines).Err? ==>
      exists k :: 0 <= k < |lines| && HeaderPairs(lines).error == HeaderWithoutColon(lines[k])
        && ':' !in lines[k] && forall j :: 0 <= j < k ==> ':' in lines[j]
  {
    CutAllSpec(lines, HeaderCut);
    forall k | 0 <= k < |lines| {
      HeaderLineSplit(lines[k]);
    }
  }

  /**
   * parse_http on the CRLF-separated pieces: `request, *headers, _, body`
   * needs three pieces; the request line must split on single spaces into
   * exactly three fields; the header lines become a dict.
   */
  function ParsePieces(pieces: seq<string>): Result<HttpRequest, ParseError> {
    if |pieces| < 3 then Err(MissingSections)
    else
      var fields := Split(pieces[0], " ");
      if |fields| != 3 then Err(BadRequestLine(|fields|))
      else
        match HeaderPairs(pieces[1..|pieces| - 2])
        case Err(e) => Err(e)
        case Ok(pairs) => Ok(HttpRequest(fields[0], fields[1], fields[2], FromPairs(pairs), pieces[|pieces| - 1]))
  }

  /** parse_http: `http.split('\r\n')`, then the pieces as above. */
  function ParseHttp(http: string): Result<HttpRequest, ParseError> {
    ParsePieces(Split(http, CRLF))
  }

  /**
   * The text of a request: request line, header lines, one more piece that the
   * splitter drops unread (normally empty), and the body, joined by CRLF.
   */
  function RenderRequest(httpMethod: string, path: string, protocol: string,
                         lines: seq<string>, gap: string, body: string): string
  {
    Join([httpMethod + " " + path + " " + protocol] + lines + [gap, body], CRLF)
  }

  /** `|Split(http, CRLF)| >= 3` spelled out: CRLF occurs at least twice. */
  ghost predicate HasTwoLineBreaks(http: string) {
    Contains(http, CRLF) && Contains(After(http, CRLF), CRLF)
  }

  lemma SplitAtLeastThree(s: string, sep: string)
    requires |sep| > 0
    ensures |Split(s, sep)| >= 3 <==> Contains(s, sep) && Contains(After(s, sep), sep)
  {
    SplitShape(s, sep);
    if Contains(s, sep) {
      SplitShape(After(s, sep), sep);
    }
  }

  /** Which error ParsePieces reports: too few pieces, or a request line without three fields. */
  lemma ParsePiecesFailures(pieces: seq<string>)
    ensures ParsePieces(pieces) == Err(MissingSections) <==> |pieces| < 3
    ensures |pieces| >= 3 ==>
      (ParsePieces(pieces).Err? && ParsePieces(pieces).error.BadRequestLine? <==> |Split(pieces[0], " ")| != 3)
  {
  }

  /** When parse_http fails, and with which error. */
  lemma ParseHttpFailures(http: string)
    ensures ParseHttp(http) == Err(MissingSections) <==> !HasTwoLineBreaks(http)
    ensures HasTwoLineBreaks(http) ==>
      (ParseHttp(http).Err? && ParseHttp(http).error.BadRequestLine?
       <==> multiset(Before(http, CRLF))[' '] != 2)
  {
    var pieces := Split(http, CRLF);
    ParsePiecesFailures(pieces);
    SplitAtLeastThree(http, CRLF);
    SplitShape(http, CRLF);
    SplitCharCount(pieces[0], ' ');
  }

  /** A line that splits on spaces into three fields is those fields joined by spaces. */
  lemma ThreeFields(line: string)
    requires |Split(line, " ")| == 3
    ensures var f := Split(line, " ");
      && line == f[0] + " " + f[1] + " " + f[2]
      && ' ' !in f[0] && ' ' !in f[1] && ' ' !in f[2]
  {
    var f := Split(line, " ");
    JoinSplit(line, " ");
    SplitPiecesFree(line, " ");
    assert f == [f[0], f[1], f[2]];
    JoinThree(f[0], f[1], f[2], " ");
    ContainsChar(f[0], ' ');
    ContainsChar(f[1], ' ');
    ContainsChar(f[2], ' ');
  }

  /** The request line is recovered from its three fields, none of them holding a space. */
  lemma ParseHttpRequestLine(http: string)
    requires ParseHttp(http).Ok?
    ensures var req := ParseHttp(http).value;
      && Before(http, CRLF) == req.httpMethod + " " + req.path + " " + req.protocol
      && ' ' !in req.httpMethod && ' ' !in req.path && ' ' !in req.protocol
  {
    SplitShape(http, CRLF);
    ThreeFields(Split(http, CRLF)[0]);
  }

  /** Three or more pieces are the first one, the middle ones, and the last two. */
  lemma PiecesShape(pieces: seq<string>)
    requires |pieces| >= 3
    ensures pieces == [pieces[0]] + pieces[1..|pieces| - 2] + [pieces[|pieces| - 2], pieces[|pieces| - 1]]
  {
  }

  /** A successful parse of pieces reads back as a rendered request. */
  lemma ParsePiecesDecomposes(pieces: seq<string>)
    requires ParsePieces(pieces).Ok?
    ensures var req := ParsePieces(pieces).value;
      var n := |pieces|;
      && n >= 3
      && pieces == [req.httpMethod + " " + req.path + " " + req.protocol] + pieces[1..n - 2] + [pieces[n - 2], req.body]
      && HeaderPairs(pieces[1..n - 2]).Ok?
      && req.headers == FromPairs(HeaderPairs(pieces[1..n - 2]).value)
  {
    PiecesShape(pieces);
    ThreeFields(pieces[0]);
  }

  /**
   * A successful parse can be read back: the text is request line, header
   * lines, a dropped piece and the body, and the header map is built from those
   * exact lines. The body holds no CRLF, so it is the text after the last one.
   */
  lemma ParseHttpDecomposes(http: string)
    requires ParseHttp(http).Ok?
    ensures var req := ParseHttp(http).value;
      exists lines: seq<string>, gap: string ::
        && http == RenderRequest(req.httpMethod, req.path, req.protocol, lines, gap, req.body)
        && (forall k :: 0 <= k < |lines| ==> !Contains(lines[k], CRLF))
        && HeaderPairs(lines).Ok?
        && req.headers == FromPairs(HeaderPairs(lines).value)
        && !Contains(gap, CRLF)
    ensures var req := ParseHttp(http).value;
      && !Contains(req.body, CRLF)
      && |req.body| + 2 <= |http|
      && http[|http| - |req.body| - 2..] == CRLF + req.body
  {
    var req := ParseHttp(http).value;
    var pieces := Split(http, CRLF);
    var n := |pieces|;
    ParsePiecesDecomposes(pieces);
    JoinSplit(http, CRLF);
    SplitPiecesFree(http, CRLF);
    var lines := pieces[1..n - 2];
    var gap := pieces[n - 2];
    assert !Contains(pieces[n - 2], CRLF) && !Contains(pieces[n - 1], CRLF);
    assert forall k :: 0 <= k < |lines| ==> lines[k] == pieces[k + 1];
    assert http == RenderRequest(req.httpMethod, req.path, req.protocol, lines, gap, req.body);
    var front := [req.httpMethod + " " + req.path + " " + req.protocol] + lines + [gap];
    assert pieces == front + [req.body];
    JoinEndsWithLast(front, req.body, CRLF);
  }

  /** Parsing the pieces of a rendered request gives back its fields. */
  lemma ParsePiecesRender(httpMethod: string, path: string, protocol: string,
                          lines: seq<string>, gap: string, body: string)
    requires Split(httpMethod + " " + path + " " + protocol, " ") == [httpMethod, path, protocol]
    requires HeaderPairs(lines).Ok?
    ensures ParsePieces([httpMethod + " " + path + " " + protocol] + lines + [gap, body])
         == Ok(HttpRequest(httpMethod, path, protocol, FromPairs(HeaderPairs(lines).value), body))
  {
    var pieces := [httpMethod + " " + path + " " + protocol] + lines + [gap, body];
    assert pieces[0] == httpMethod + " " + path + " " + protocol;
    assert pieces[1..|pieces| - 2] == lines;
  }

  /** Splitting a request line built from three space-free fields gives the fields back. */
  lemma RequestLineRoundTrip(httpMethod: string, path: string, protocol: string)
    requires ' ' !in httpMethod && ' ' !in path && ' ' !in protocol
    ensures Split(httpMethod + " " + path + " " + protocol, " ") == [httpMethod, path, protocol]
  {
    CharBorderless(' ');
    ContainsChar(httpMethod, ' ');
    ContainsChar(path, ' ');
    ContainsChar(protocol, ' ');
    JoinThree(httpMethod, path, protocol, " ");
    SplitJoin([httpMethod, path, protocol], " ");
  }

  /**
   * Rendering and then parsing gives back the fields, when no field holds a
   * line break, the three request-line fields hold no space and every header
   * line has a `:`. Whatever the dropped piece holds is ignored.
   */
  lemma ParseHttpRender(httpMethod: string, path: string, protocol: string,
                        lines: seq<string>, gap: string, body: string)
    requires !Contains(httpMethod + " " + path + " " + protocol, CRLF)
    requires ' ' !in httpMethod && ' ' !in path && ' ' !in protocol
    requires forall k :: 0 <= k < |lines| ==> !Contains(lines[k], CRLF) && ':' in lines[k]
    requires !Contains(gap, CRLF) && !Contains(body, CRLF)
    ensures HeaderPairs(lines).Ok?
    ensures ParseHttp(RenderRequest(httpMethod, path, protocol, lines, gap, body))
         == Ok(HttpRequest(httpMethod, path, protocol, FromPairs(HeaderPairs(lines).value), body))
  {
    var pieces := [httpMethod + " " + path + " " + protocol] + lines + [gap, body];
    HeaderPairsSpec(lines);
    CrlfBorderless();
    PiecesFreeAround(httpMethod + " " + path + " " + protocol, lines, gap, body, CRLF);
    SplitJoin(pieces, CRLF);
    RequestLineRoundTrip(httpMethod, path, protocol);
    ParsePiecesRender(httpMethod, path, protocol, lines, gap, body);
  }

  /** A repeated header name keeps the value of its last line. */
  lemma HeaderLastWins(lines: seq<string>, i: nat)
    requires HeaderPairs(lines).Ok? && i < |lines|
    requires forall j :: i < j < |lines| ==> Before(lines[j], ":") != Before(lines[i], ":")
    ensures Before(lines[i], ":") in FromPairs(HeaderPairs(lines).value)
    ensures FromPairs(HeaderPairs(lines).value)[Before(lines[i], ":")] == After(lines[i], ":")
  {
    HeaderPairsSpec(lines);
    FromPairsLastWins(HeaderPairs(lines).value, i);
  }

  // ---------------------------------------------------------------------------
  // Environ builder (to_environ, format_headers)
  // ---------------------------------------------------------------------------

  /** The environ dict; its `wsgi.input` stream is represented by the text it reads back. */
  datatype Environ = Environ(
    requestMethod: string,
    pathInfo: string,
    serverProtocol: string,
    input: string,
    headers: map<string, string>)

  /** format_headers: a placeholder that hands the header map back untouched. */
  function FormatHeaders(headers: map<string, string>): (r: map<string, string>)
    ensures r == headers
  {
    headers
  }

  /** to_environ: each parsed field under its fixed key. */
  function ToEnviron(req: HttpRequest): (env: Environ)
    ensures env.requestMethod == req.httpMethod && env.pathInfo == req.path
    ensures env.serverProtocol == req.protocol && env.input == req.body
    ensures env.headers == req.headers
  {
    Environ(req.httpMethod, req.path, req.protocol, req.body, FormatHeaders(req.headers))
  }

  /** The parsed request read back out of an environ. */
  function RequestOf(env: Environ): HttpRequest {
    HttpRequest(env.requestMethod, env.pathInfo, env.serverProtocol, env.headers, env.input)
  }

  /** to_environ loses nothing: the request is recovered from it. */
  lemma ToEnvironLossless(req: HttpRequest)
    ensures RequestOf(ToEnviron(req)) == req
  {
  }

  // ---------------------------------------------------------------------------
  // Route resolver (parse_api_route)
  // ---------------------------------------------------------------------------

  /** The dict parse_api_route returns: `{file, method, args}`, its `method` entry held as `action`. */
  datatype RouteDescriptor = RouteDescriptor(file: string, action: string, args: map<string, string>)

  /** The errors parse_api_route raises. */
  datatype RouteError =
    | EmptyPrefix                    // `str.split('')` raises ValueError
    | PrefixNotFound                 // `path.split(api_url)[1]`
    | MissingAction                  // `route[1]`
    | MissingQuery                   // `route[1].split("?")[1]`
    | ArgWithoutValue(token: string) // `k.split("=")[1]`

  /** The key and value of one `&`-token, `k.split("=")[0]` and `k.split("=")[1]`, if it has an `=`. */
  function ArgCut(token: string): Option<(string, string)> {
    var kv := Split(token, "=");
    if |kv| < 2 then None else Some((kv[0], kv[1]))
  }

  /** The pairs the args dict is built from; the first token without `=` fails. */
  function ArgPairs(tokens: seq<string>): (r: Result<seq<(string, string)>, RouteError>)
    ensures r.Err? ==> r.error.ArgWithoutValue?
  {
    match CutAll(tokens, ArgCut)
    case Err(token) => Err(ArgWithoutValue(token))
    case Ok(pairs) => Ok(pairs)
  }

  /** One `&`-token: it has a value exactly when it has an `=`; the key is before the first `=`, the value up to the second. */
  lemma ArgTokenSplit(token: string)
    ensures ArgCut(token).Some? <==> '=' in token
    ensures ArgCut(token).Some? ==> ArgCut(token).value == (Before(token, "="), Before(After(token, "="), "="))
  {
    ContainsChar(token, '=');
    SplitShape(token, "=");
    if '=' in token {
      SplitSecond(token, "=");
    }
  }

  /**
   * Each key is the text before the token's first `=`, each value the text
   * between its first and second `=`; the first token without `=` is the error.
   */
  lemma ArgPairsSpec(tokens: seq<string>)
    ensures ArgPairs(tokens).Ok? <==> forall k :: 0 <= k < |tokens| ==> '=' in tokens[k]
    ensures ArgPairs(tokens).Ok? ==> |ArgPairs(tokens).value| == |tokens|
    ensures ArgPairs(tokens).Ok? ==> forall k :: 0 <= k < |tokens| ==>
      ArgPairs(tokens).value[k] == (Before(tokens[k], "="), Before(After(tokens[k], "="), "="))
    ensures ArgPairs(tokens).Err? ==>
      exists k :: 0 <= k < |tokens| && ArgPairs(tokens).error == ArgWithoutValue(tokens[k])
        && '=' !in tokens[k] && forall j :: 0 <= j < k ==> '=' in tokens[j]
  {
    CutAllSpec(tokens, ArgCut);
    forall k | 0 <= k < |tokens| {
      ArgTokenSplit(tokens[k]);
    }
  }

  /**
   * parse_api_route after `raw = path.split(api_url)[1]`: the file is
   * `route[0]`, the action `route[1].split("?")[0]`, and the args are built
   * from the `&`-tokens of `route[1].split("?")[1]`.
   */
  function ParseRaw(raw: string): Result<RouteDescriptor, RouteError> {
    var route := Split(raw, "/");
    if |route| < 2 then Err(MissingAction)
    else
      var action := Split(route[1], "?");
      if |action| < 2 then Err(MissingQuery)
      else
        match ArgPairs(Split(action[1], "&"))
        case Err(e) => Err(e)
        case Ok(pairs) => Ok(RouteDescriptor(route[0], action[0], FromPairs(pairs)))
  }

  /** parse_api_route without its logging side effect. */
  function ParseApiRoute(path: string, apiUrl: string): Result<RouteDescriptor, RouteError> {
    if |apiUrl| == 0 then Err(EmptyPrefix)
    else
      var parts := Split(path, apiUrl);
      if |parts| < 2 then Err(PrefixNotFound) else ParseRaw(parts[1])
  }

  /** The text between the first and the second occurrence of the prefix. */
  function RawRoute(path: string, prefix: string): string
    requires |prefix| > 0
  {
    Before(After(path, prefix), prefix)
  }

  /** The second `/`-segment: between the first and the second `/`. */
  function ActionSegment(raw: string): string {
    Before(After(raw, "/"), "/")
  }

  /** The query string: between the first and the second `?`. */
  function QueryText(segment: string): string {
    Before(After(segment, "?"), "?")
  }

  /** A path with the prefix resolves as its raw route does. */
  lemma ParseApiRouteRaw(path: string, prefix: string)
    requires |prefix| > 0 && Contains(path, prefix)
    ensures ParseApiRoute(path, prefix) == ParseRaw(RawRoute(path, prefix))
  {
    SplitSecond(path, prefix);
  }

  /** When the raw route fails, and with which error. */
  lemma ParseRawFailures(raw: string)
    ensures ParseRaw(raw) == Err(MissingAction) <==> '/' !in raw
    ensures '/' in raw ==> (ParseRaw(raw) == Err(MissingQuery) <==> '?' !in ActionSegment(raw))
    ensures '/' in raw && '?' in ActionSegment(raw) ==>
      (ParseRaw(raw).Ok? <==> forall t :: t in Split(QueryText(ActionSegment(raw)), "&") ==> '=' in t)
  {
    ContainsChar(raw, '/');
    SplitShape(raw, "/");
    if '/' in raw {
      SplitSecond(raw, "/");
      var segment := ActionSegment(raw);
      ContainsChar(segment, '?');
      SplitShape(segment, "?");
      if '?' in segment {
        SplitSecond(segment, "?");
        ArgPairsSpec(Split(QueryText(segment), "&"));
      }
    }
  }

  /** When parse_api_route fails, and with which error. */
  lemma ParseApiRouteFailures(path: string, prefix: string)
    ensures |prefix| == 0 ==> ParseApiRoute(path, prefix) == Err(EmptyPrefix)
    ensures |prefix| > 0 ==> (ParseApiRoute(path, prefix) == Err(PrefixNotFound) <==> !Contains(path, prefix))
    ensures |prefix| > 0 && Contains(path, prefix) ==>
      (ParseApiRoute(path, prefix) == Err(MissingAction) <==> '/' !in RawRoute(path, prefix))
    ensures |prefix| > 0 && Contains(path, prefix) && '/' in RawRoute(path, prefix) ==>
      (ParseApiRoute(path, prefix) == Err(MissingQuery) <==> '?' !in ActionSegment(RawRoute(path, prefix)))
    ensures |prefix| > 0 && Contains(path, prefix) && '/' in RawRoute(path, prefix)
            && '?' in ActionSegment(RawRoute(path, prefix)) ==>
      (ParseApiRoute(path, prefix).Ok? <==>
       forall t :: t in Split(QueryText(ActionSegment(RawRoute(path, prefix))), "&") ==> '=' in t)
  {
    if |prefix| > 0 {
      SplitShape(path, prefix);
      if Contains(path, prefix) {
        ParseApiRouteRaw(path, prefix);
        ParseRawFailures(RawRoute(path, prefix));
      }
    }
  }

  /**
   * What a resolved raw route holds: the file is its first `/`-segment, the
   * action (`method`) the second segment up to its first `?`, and the args
   * the key/value pairs of the `&`-tokens of the query string.
   */
  lemma ParseRawFields(raw: string)
    requires ParseRaw(raw).Ok?
    ensures '/' in raw && '?' in ActionSegment(raw)
    ensures var rd := ParseRaw(raw).value;
      var tokens := Split(QueryText(ActionSegment(raw)), "&");
      && rd.file == Before(raw, "/")
      && rd.action == Before(ActionSegment(raw), "?")
      && ArgPairs(tokens).Ok?
      && rd.args == FromPairs(ArgPairs(tokens).value)
  {
    ParseRawFailures(raw);
    SplitShape(raw, "/");
    SplitSecond(raw, "/");
    SplitShape(ActionSegment(raw), "?");
    SplitSecond(ActionSegment(raw), "?");
  }

  /**
   * What a resolved route holds: the file is the first `/`-segment of the raw
   * route, the action (`method`) the second segment up to its first `?`, and the args
   * the key/value pairs of the `&`-tokens of the query string.
   */
  lemma ParseApiRouteFields(path: string, prefix: string)
    requires ParseApiRoute(path, prefix).Ok?
    ensures |prefix| > 0 && Contains(path, prefix)
    ensures var rd := ParseApiRoute(path, prefix).value;
      var raw := RawRoute(path, prefix);
      var tokens := Split(QueryText(ActionSegment(raw)), "&");
      && rd.file == Before(raw, "/")
      && rd.action == Before(ActionSegment(raw), "?")
      && ArgPairs(tokens).Ok?
      && rd.args == FromPairs(ArgPairs(tokens).value)
  {
    ParseApiRouteFailures(path, prefix);
    ParseApiRouteRaw(path, prefix);
    ParseRawFields(RawRoute(path, prefix));
  }

  /** Only the text between the first and the second prefix matters: what comes before or after it is ignored. */
  lemma RouteDependsOnlyOnRaw(p1: string, p2: string, prefix: string)
    requires |prefix| > 0 && Contains(p1, prefix) && Contains(p2, prefix)
    requires RawRoute(p1, prefix) == RawRoute(p2, prefix)
    ensures ParseApiRoute(p1, prefix) == ParseApiRoute(p2, prefix)
  {
    ParseApiRouteRaw(p1, prefix);
    ParseApiRouteRaw(p2, prefix);
  }

  /** Segments after the second `/`-segment are ignored. */
  lemma RouteIgnoresLaterSegments(raw1: string, raw2: string)
    requires '/' in raw1 && '/' in raw2
    requires Before(raw1, "/") == Before(raw2, "/") && ActionSegment(raw1) == ActionSegment(raw2)
    ensures ParseRaw(raw1) == ParseRaw(raw2)
  {
    ContainsChar(raw1, '/');
    ContainsChar(raw2, '/');
    SplitShape(raw1, "/");
    SplitShape(raw2, "/");
    SplitSecond(raw1, "/");
    SplitSecond(raw2, "/");
  }

  /** A repeated argument name keeps the value of its last token. */
  lemma ArgLastWins(tokens: seq<string>, i: nat)
    requires ArgPairs(tokens).Ok? && i < |tokens|
    requires forall j :: i < j < |tokens| ==> Before(tokens[j], "=") != Before(tokens[i], "=")
    ensures Before(tokens[i], "=") in FromPairs(ArgPairs(tokens).value)
    ensures FromPairs(ArgPairs(tokens).value)[Before(tokens[i], "=")] == Before(After(tokens[i], "="), "=")
  {
    ArgPairsSpec(tokens);
    FromPairsLastWins(ArgPairs(tokens).value, i);
  }

  // ---------------------------------------------------------------------------
  // Simple response serialiser (process_response)
  // ---------------------------------------------------------------------------

  /**
   * process_response: a 200 response whose Content-Length reads back as the
   * number of characters of the body, followed by a Content-Type header, a
   * blank line, the body and one more CRLF.
   */
  function ProcessResponse(response: string): (r: string)
    ensures exists digits: string ::
      && ParseNat(digits) == Some(|response|)
      && r == "HTTP/1.1 200 OK\r\n" + "Content-Length: " + digits + "\r\n" + "Content-Type: text/html\r\n"
              + "\r\n" + response + "\r\n"
  {
    NatToStringRoundTrip(|response|);
    "HTTP/1.1 200 OK\r\n"
    + "Content-Length: " + NatToString(|response|) + "\r\n"
    + "Content-Type: text/html\r\n"
    + "\r\n"
    + response
    + "\r\n"
  }

  // ---------------------------------------------------------------------------
  // Staged header writer (start_response)
  // ---------------------------------------------------------------------------

  /** One header line `key: value\r\n`. */
  function HeaderLine(header: (string, string)): string {
    header.0 + ": " + header.1 + CRLF
  }

  /** The header lines in list order. */
  function HeaderLines(headers: seq<(string, string)>): string
    decreases |headers|
  {
    if |headers| == 0 then []
    else HeaderLines(headers[..|headers| - 1]) + HeaderLine(headers[|headers| - 1])
  }

  /** What start_response writes: status line, header lines, blank line. */
  function StatusBlock(status: string, headers: seq<(string, string)>): string {
    "HTTP/1.1 " + status + CRLF + HeaderLines(headers) + CRLF
  }

  /** The text of each header line without its terminator. */
  function HeaderTexts(headers: seq<(string, string)>): (r: seq<string>)
    ensures |r| == |headers|
    ensures forall k :: 0 <= k < |headers| ==> r[k] == headers[k].0 + ": " + headers[k].1
    decreases |headers|
  {
    if |headers| == 0 then []
    else HeaderTexts(headers[..|headers| - 1]) + [headers[|headers| - 1].0 + ": " + headers[|headers| - 1].1]
  }

  lemma {:induction false} StatusBlockJoin(statusLine: string, headers: seq<(string, string)>)
    ensures Join([statusLine] + HeaderTexts(headers), CRLF) + CRLF == statusLine + CRLF + HeaderLines(headers)
    decreases |headers|
  {
    if |headers| > 0 {
      var init := headers[..|headers| - 1];
      var h := headers[|headers| - 1];
      StatusBlockJoin(statusLine, init);
      assert [statusLine] + HeaderTexts(headers) == ([statusLine] + HeaderTexts(init)) + [h.0 + ": " + h.1];
      JoinSnoc([statusLine] + HeaderTexts(init), h.0 + ": " + h.1, CRLF);
    }
  }

  /** A text made of lines joined by CRLF, then two more CRLFs, splits back into those lines and two empty ones. */
  lemma BlockLines(first: string, middle: seq<string>, block: string)
    requires !Contains(first, CRLF) && forall k :: 0 <= k < |middle| ==> !Contains(middle[k], CRLF)
    requires block == Join([first] + middle, CRLF) + CRLF + CRLF
    ensures Split(block, CRLF) == [first] + middle + ["", ""]
  {
    var front := [first] + middle;
    JoinTwoEmpty(front, CRLF);
    PiecesFreeAround(first, middle, "", "", CRLF);
    CrlfBorderless();
    SplitJoin(front + ["", ""], CRLF);
  }

  /** No header text holds CRLF when no header's `key: value` does. */
  lemma HeaderTextsFree(headers: seq<(string, string)>)
    requires forall k :: 0 <= k < |headers| ==> !Contains(headers[k].0 + ": " + headers[k].1, CRLF)
    ensures forall k :: 0 <= k < |HeaderTexts(headers)| ==> !Contains(HeaderTexts(headers)[k], CRLF)
  {
  }

  /**
   * The block start_response writes reads back line by line: the status line,
   * one line per header in list order, then the empty line and an empty rest.
   */
  lemma StatusBlockLines(status: string, headers: seq<(string, string)>)
    requires !Contains("HTTP/1.1 " + status, CRLF)
    requires forall k :: 0 <= k < |headers| ==> !Contains(headers[k].0 + ": " + headers[k].1, CRLF)
    ensures Split(StatusBlock(status, headers), CRLF) == ["HTTP/1.1 " + status] + HeaderTexts(headers) + ["", ""]
  {
    StatusBlockJoin("HTTP/1.1 " + status, headers);
    HeaderTextsFree(headers);
    BlockLines("HTTP/1.1 " + status, HeaderTexts(headers), StatusBlock(status, headers));
  }

  lemma HeaderLinesTwo(a: (string, string), b: (string, string))
    ensures HeaderLines([a, b]) == HeaderLine(a) + HeaderLine(b)
  {
    assert [a, b][..1] == [a];
    assert [a][..0] == [];
    assert HeaderLines([a]) == HeaderLine(a);
  }

  /** The single-string layout, for any Content-Length text `d`, is the staged block plus body and CRLF. */
  lemma StagedShape(d: string, response: string)
    ensures "HTTP/1.1 200 OK\r\n" + "Content-Length: " + d + "\r\n" + "Content-Type: text/html\r\n"
            + "\r\n" + response + "\r\n"
         == StatusBlock("200 OK", [("Content-Length", d), ("Content-Type", "text/html")]) + response + CRLF
  {
    HeaderLinesTwo(("Content-Length", d), ("Content-Type", "text/html"));
  }

  /** The single-string response is the staged block with its two headers, then the body and a CRLF. */
  lemma ProcessResponseIsStaged(response: string)
    ensures ProcessResponse(response)
         == StatusBlock("200 OK", [("Content-Length", NatToString(|response|)), ("Content-Type", "text/html")])
            + response + CRLF
  {
    StagedShape(NatToString(|response|), response);
  }

  /** A socket connection, seen as the text written to it so far. */
  class Connection {
    var sent: string

    constructor ()
      ensures sent == []
    {
      sent := [];
    }

    /** `conn.sendall(data)`: the data is appended; nothing written earlier changes. */
    method SendAll(data: string)
      modifies this
      ensures sent == old(sent) + data
    {
      sent := sent + data;
    }
  }

  /** start_response: writes the status line, each header line in order, then a blank line. */
  method StartResponse(status: string, headers: seq<(string, string)>, conn: Connection)
    modifies conn
    ensures conn.sent == old(conn.sent) + StatusBlock(status, headers)
  {
    conn.SendAll("HTTP/1.1 " + status + CRLF);
    for i := 0 to |headers|
      invariant conn.sent == old(conn.sent) + "HTTP/1.1 " + status + CRLF + HeaderLines(headers[..i])
    {
      conn.SendAll(headers[i].0 + ": " + headers[i].1 + CRLF);
      assert headers[..i + 1][..i] == headers[..i];
    }
    assert headers[..|headers|] == headers;
    conn.SendAll(CRLF);
  }
}
